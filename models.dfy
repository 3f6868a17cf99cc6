/** The `category` table (app/models.py, class Category): one row per category,
    with the column types, CHECK constraints, UNIQUE constraints and the
    self-referencing foreign key that the store enforces on every insert. */
module Models {
  import opened Wrappers

  /** `String(100)` and `String(120)`: the longest name and slug a row holds. */
  const NameMaxLength := 100
  const SlugMaxLength := 120

  /** Column defaults used when an insert leaves `is_active` or `level` out. */
  const ColumnDefaultIsActive := false
  const ColumnDefaultLevel := 100

  /** `Integer` columns are 32-bit signed integers in the store. */
  const Int32Min := -0x8000_0000
  const Int32Max := 0x7fff_ffff

  predicate IsInt32(x: int) {
    Int32Min <= x <= Int32Max
  }

  /** A stored category row. `parentId` is the nullable self-reference. */
  datatype Category = Category(
    id: int,
    name: string,
    slug: string,
    isActive: bool,
    level: int,
    parentId: Option<int>)

  /** The values the columns' types can hold: at most 100 characters of
      name, 120 of slug, and 32-bit level and parent id. The store refuses a
      value outside these while it plans the INSERT, before the id default
      is evaluated. */
  predicate ColumnsAccept(c: Category) {
    && |c.name| <= NameMaxLength
    && |c.slug| <= SlugMaxLength
    && IsInt32(c.level)
    && (c.parentId.Some? ==> IsInt32(c.parentId.value))
  }

  /** Everything a stored row satisfies on its own: its column types, a
      32-bit id, and the two CHECK constraints `LENGTH(name) > 0` and
      `LENGTH(slug) > 0`. That the parent exists is the foreign key's part. */
  predicate RowFits(c: Category) {
    && IsInt32(c.id)
    && ColumnsAccept(c)
    && 1 <= |c.name|
    && 1 <= |c.slug|
  }

  predicate HasId(rows: seq<Category>, id: int) {
    exists i :: 0 <= i < |rows| && rows[i].id == id
  }

  /** Primary key. */
  predicate IdsUnique(rows: seq<Category>) {
    forall i, j :: 0 <= i < j < |rows| ==> rows[i].id != rows[j].id
  }

  /** `UniqueConstraint("slug")`. */
  predicate SlugsUnique(rows: seq<Category>) {
    forall i, j :: 0 <= i < j < |rows| ==> rows[i].slug != rows[j].slug
  }

  /** `UniqueConstraint("name", "level")`: a name may repeat, but only at
      different levels. */
  predicate NameLevelsUnique(rows: seq<Category>) {
    forall i, j :: 0 <= i < j < |rows| ==>
      rows[i].name != rows[j].name || rows[i].level != rows[j].level
  }

  /** `ForeignKey("category.id")`: a parent is some row of the table (itself
      included). Acyclicity is not part of the schema. */
  predicate ParentsExist(rows: seq<Category>) {
    forall i :: 0 <= i < |rows| && rows[i].parentId.Some? ==>
      HasId(rows, rows[i].parentId.value)
  }

  /** Every constraint of the table holds. */
  predicate ValidTable(rows: seq<Category>) {
    && (forall i :: 0 <= i < |rows| ==> RowFits(rows[i]))
    && IdsUnique(rows)
    && SlugsUnique(rows)
    && NameLevelsUnique(rows)
    && ParentsExist(rows)
  }

  /** The checks the store makes while row `c` goes in after `rows`: no
      stored row has its id, its slug or its (name, level), and its parent,
      if any, is in the table once `c` is added. */
  predicate KeysFree(rows: seq<Category>, c: Category) {
    && (forall i :: 0 <= i < |rows| ==>
          && rows[i].id != c.id
          && rows[i].slug != c.slug
          && (rows[i].name != c.name || rows[i].level != c.level))
    && (c.parentId.Some? ==> HasId(rows + [c], c.parentId.value))
  }

  /** The store accepts row `c` after `rows`: the row fits and its keys are free. */
  predicate Admits(rows: seq<Category>, c: Category) {
    RowFits(c) && KeysFree(rows, c)
  }

  /** Appending keeps every id of the old table present. */
  lemma {:induction false} HasIdAppend(rows: seq<Category>, c: Category, id: int)
    requires HasId(rows, id)
    ensures HasId(rows + [c], id)
  {
    var i :| 0 <= i < |rows| && rows[i].id == id;
    assert (rows + [c])[i] == rows[i];
  }

  /** On a valid table the store's insert checks are exactly what keeps the
      table valid: the insert is admitted if and only if the table with the
      new row appended satisfies every constraint. */
  lemma {:induction false} AdmitsIff(rows: seq<Category>, c: Category)
    requires ValidTable(rows)
    ensures Admits(rows, c) <==> ValidTable(rows + [c])
  {
    var t := rows + [c];
    assert forall i :: 0 <= i < |rows| ==> t[i] == rows[i];
    assert t[|rows|] == c;
    if Admits(rows, c) {
      forall i | 0 <= i < |t| && t[i].parentId.Some?
        ensures HasId(t, t[i].parentId.value)
      {
        if i < |rows| {
          HasIdAppend(rows, c, rows[i].parentId.value);
        }
      }
    }
    if ValidTable(t) {
      forall i | 0 <= i < |rows|
        ensures rows[i].id != c.id && rows[i].slug != c.slug
        ensures rows[i].name != c.name || rows[i].level != c.level
      {
        assert t[i] == rows[i] && t[|rows|] == c;
      }
      assert RowFits(t[|rows|]);
      assert c.parentId.Some? ==> HasId(t, t[|rows|].parentId.value);
    }
  }
}
