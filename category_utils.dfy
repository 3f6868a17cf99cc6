/** The duplicate check run before a category is created
    (app/utils/category_utils.py, `check_existing_category`). It looks up the
    first stored row whose slug equals the candidate's, or whose name and
    level both equal the candidate's, and classifies the conflict. */
module CategoryUtils {
  import opened Wrappers
  import opened Models
  import opened CategorySchema

  /** Status of the error raised on a conflict. */
  const ConflictStatus := 400

  /** The two kinds of conflict the check reports. */
  datatype Conflict = NameLevelExists | SlugExists

  /** The `detail` of the error raised for each kind of conflict. */
  function DetailOf(k: Conflict): string {
    match k
    case NameLevelExists => "Category name and level exists"
    case SlugExists => "Category slug exists"
  }

  /** The lookup's filter: same slug, or same name and same level. A
      candidate whose level is `None` is compared with `IS NULL`, which no
      stored row satisfies, so it can only match on slug. */
  predicate Matches(r: Category, cand: CategoryBase) {
    r.slug == cand.slug || (r.name == cand.name && cand.level == Some(r.level))
  }

  /** The stored row that also has the candidate's name and level. */
  predicate SameNameLevel(r: Category, cand: CategoryBase) {
    r.name == cand.name && cand.level == Some(r.level)
  }

  /** The database driver refuses to send a string that holds a NUL
      character, so the lookup fails, before it reaches the store, for a
      candidate whose name or slug holds one. */
  predicate Sendable(cand: CategoryBase) {
    '\0' !in cand.name && '\0' !in cand.slug
  }

  /** `k` is the index of the first row, in table order, that matches. */
  predicate IsFirstMatch(rows: seq<Category>, cand: CategoryBase, k: int) {
    && 0 <= k < |rows|
    && Matches(rows[k], cand)
    && forall i :: 0 <= i < k ==> !Matches(rows[i], cand)
  }

  /** The lookup with `.first()`: the index of the first matching row, if any. */
  function FirstMatch(rows: seq<Category>, cand: CategoryBase): (m: Option<nat>)
    ensures m.None? <==> forall i :: 0 <= i < |rows| ==> !Matches(rows[i], cand)
    ensures m.Some? ==> IsFirstMatch(rows, cand, m.value)
  {
    if |rows| == 0 then None
    else if Matches(rows[0], cand) then Some(0)
    else
      match FirstMatch(rows[1..], cand)
      case None => None
      case Some(k) => Some(k + 1)
  }

  /** `check_existing_category`: `None` when the candidate conflicts with no
      stored row; otherwise the conflict found on the first matching row,
      which is a name-and-level conflict whenever that row has the
      candidate's name and level (even if it has the slug too), and a slug
      conflict otherwise. The table is only read. */
  function CheckExisting(rows: seq<Category>, cand: CategoryBase): (r: Option<Conflict>)
    ensures r.None? <==> forall i :: 0 <= i < |rows| ==> !Matches(rows[i], cand)
    ensures r == Some(NameLevelExists) <==>
      exists k :: IsFirstMatch(rows, cand, k) && SameNameLevel(rows[k], cand)
    ensures r == Some(SlugExists) <==>
      exists k :: IsFirstMatch(rows, cand, k) && !SameNameLevel(rows[k], cand)
  {
    match FirstMatch(rows, cand)
    case None => None
    case Some(k) =>
      if SameNameLevel(rows[k], cand) then Some(NameLevelExists) else Some(SlugExists)
  }

  /** Only the first match decides: rows stored after it, matching or not,
      do not change the outcome. */
  lemma {:induction false} OnlyFirstMatchDecides(rows: seq<Category>, later: seq<Category>, cand: CategoryBase)
    requires CheckExisting(rows, cand).Some?
    ensures CheckExisting(rows + later, cand) == CheckExisting(rows, cand)
  {
    var k := FirstMatch(rows, cand).value;
    var t := rows + later;
    assert t[k] == rows[k];
    assert forall i :: 0 <= i < k ==> t[i] == rows[i];
    assert IsFirstMatch(t, cand, k);
  }

  /** A name already stored at another level, under another slug, is no
      conflict. */
  lemma SameNameOtherLevelAllowed(rows: seq<Category>, cand: CategoryBase)
    requires cand.level.Some?
    requires forall i :: 0 <= i < |rows| ==> rows[i].slug != cand.slug
    requires forall i :: 0 <= i < |rows| && rows[i].name == cand.name ==>
      rows[i].level != cand.level.value
    ensures CheckExisting(rows, cand) == None
  {
  }

  /** A stored slug is always a conflict. It is reported as a slug conflict
      when no stored row has the candidate's name and level. */
  lemma SlugReuseRejected(rows: seq<Category>, cand: CategoryBase, i: int)
    requires 0 <= i < |rows| && rows[i].slug == cand.slug
    ensures CheckExisting(rows, cand).Some?
    ensures (forall j :: 0 <= j < |rows| ==> !SameNameLevel(rows[j], cand)) ==>
      CheckExisting(rows, cand) == Some(SlugExists)
  {
  }

  /** A stored (name, level) pair is a conflict, reported as a name-and-level
      conflict when every row that shares the candidate's slug also shares
      its name and level (in particular when no row shares the slug). */
  lemma NameLevelReuseRejected(rows: seq<Category>, cand: CategoryBase, i: int)
    requires 0 <= i < |rows| && SameNameLevel(rows[i], cand)
    requires forall j :: 0 <= j < |rows| && rows[j].slug == cand.slug ==> SameNameLevel(rows[j], cand)
    ensures CheckExisting(rows, cand) == Some(NameLevelExists)
  {
  }

  /** Reusing a stored slug is not always reported as a slug conflict: when an
      earlier row has the candidate's name and level, that row is the first
      match and the name-and-level message wins. */
  lemma SlugReuseCanReportNameLevel()
    ensures
      var rows := [Category(1, "Shoes", "shoes", false, 100, None),
                   Category(2, "Boots", "boots", false, 100, None)];
      var cand := CategoryBase("Shoes", "boots", Some(false), Some(100), None);
      rows[1].slug == cand.slug && CheckExisting(rows, cand) == Some(NameLevelExists)
  {
  }
}
