/** The create endpoint (app/routers/category_routes.py, `create_category`)
    over an in-memory category table: validate the body, run the duplicate
    check, build the row, let the store assign the next id and check its
    constraints, then append the row and answer with it. */
module CategoryRoutes {
  import opened Wrappers
  import opened Models
  import opened CategorySchema
  import opened CategoryUtils

  const StatusCreated := 201
  const StatusUnprocessable := 422
  const StatusServerError := 500
  const ServerErrorDetail := "Internal Server Error"

  /** What a response carries: a record, an error detail, or the list of
      rejected fields of a body that failed validation. */
  datatype Body = Record(category: CategoryReturn) | Detail(message: string) | Errors(errors: seq<FieldError>)

  datatype Response = Response(status: int, body: Body)

  /** `Category(**category_data.model_dump())` with the id the store's
      sequence hands out. A `None` for `is_active` or `level` is left out of
      the INSERT, so the column default is stored instead. */
  function NewRow(id: int, data: CategoryCreate): (c: Category)
    ensures c.id == id && c.name == data.name && c.slug == data.slug
    ensures c.parentId == data.parentId
    ensures c.isActive <==> data.isActive == Some(true)
    ensures data.level.Some? ==> c.level == data.level.value
    ensures data.level.None? ==> c.level == 100
  {
    Category(id, data.name, data.slug,
             data.isActive.GetOr(ColumnDefaultIsActive),
             data.level.GetOr(ColumnDefaultLevel),
             data.parentId)
  }

  /** The response body built from a stored row (`response_model=CategoryReturn`). */
  function ToReturn(c: Category): CategoryReturn {
    CategoryReturn(CategoryBase(c.name, c.slug, Some(c.isActive), Some(c.level), c.parentId), c.id)
  }

  /** Every id of the table is below the next value of the id sequence. */
  predicate IdsBelow(rows: seq<Category>, nextId: int) {
    forall i :: 0 <= i < |rows| ==> rows[i].id < nextId
  }

  /** The effect of one create: the response, the table and the sequence's
      next value afterwards. */
  datatype Outcome = Outcome(response: Response, rows: seq<Category>, nextId: int)

  /** One create request with an already validated body.
      - A name or slug the driver cannot send makes the lookup fail: 500.
      - A conflict found by the duplicate check answers 400.
      - A value the columns cannot hold, or an exhausted 32-bit id sequence,
        is refused before an id is drawn: 500.
      - Otherwise the INSERT draws an id, which is not given back on failure.
        A CHECK, key or foreign-key violation answers 500; an admitted row is
        appended and returned with 201.
      Only the 201 case changes the table. */
  function Create(rows: seq<Category>, nextId: int, data: CategoryCreate): (o: Outcome)
    ensures o.response.status == 201 || o.response.status == 400 || o.response.status == 500
    ensures o.rows == rows || (o.response.status == 201 && o.rows == rows + [NewRow(nextId, data)])
    ensures o.response.status == 201 ==> o.rows != rows && o.nextId == nextId + 1
    ensures o.response.status != 201 ==> o.rows == rows
    ensures o.nextId == nextId || o.nextId == nextId + 1
  {
    if !Sendable(data) then
      Outcome(Response(StatusServerError, Detail(ServerErrorDetail)), rows, nextId)
    else
      match CheckExisting(rows, data)
      case Some(k) => Outcome(Response(ConflictStatus, Detail(DetailOf(k))), rows, nextId)
      case None =>
        var c := NewRow(nextId, data);
        if !ColumnsAccept(c) || !IsInt32(nextId) then
          Outcome(Response(StatusServerError, Detail(ServerErrorDetail)), rows, nextId)
        else if !Admits(rows, c) then
          Outcome(Response(StatusServerError, Detail(ServerErrorDetail)), rows, nextId + 1)
        else
          Outcome(Response(StatusCreated, Record(ToReturn(c))), rows + [c], nextId + 1)
  }

  /** The whole POST: a body that fails validation answers 422 before the
      handler runs, and only then; it changes nothing. */
  function Post(rows: seq<Category>, nextId: int, p: Payload): (o: Outcome)
    ensures o.response.status == 422 <==> Validate(p).Err?
    ensures Validate(p).Err? ==> o.rows == rows && o.nextId == nextId
  {
    match Validate(p)
    case Err(errors) => Outcome(Response(StatusUnprocessable, Errors(errors)), rows, nextId)
    case Ok(data) => Create(rows, nextId, data)
  }

  /** A conflict answers 400 with the check's own detail, and nothing is
      inserted and no id is drawn. (A name or slug the driver cannot send
      fails the lookup itself: 500, with nothing changed either.) */
  lemma ConflictChangesNothing(rows: seq<Category>, nextId: int, data: CategoryCreate)
    requires CheckExisting(rows, data).Some?
    ensures var o := Create(rows, nextId, data);
      && o.rows == rows && o.nextId == nextId
      && (Sendable(data) ==>
            o.response == Response(400, Detail(DetailOf(CheckExisting(rows, data).value))))
      && (!Sendable(data) ==> o.response.status == 500)
  {
  }

  /** Creating with a slug that is already stored leaves the table and the
      sequence unchanged, whatever the other fields are, and answers 400 with
      one of the two conflict messages (500 if the driver cannot send the
      name or slug). */
  lemma DuplicateSlugRejected(rows: seq<Category>, nextId: int, data: CategoryCreate, i: int)
    requires 0 <= i < |rows| && rows[i].slug == data.slug
    ensures var o := Create(rows, nextId, data);
      && o.rows == rows && o.nextId == nextId
      && o.response.status == (if Sendable(data) then 400 else 500)
      && (Sendable(data) ==>
            o.response.body in {Detail("Category name and level exists"), Detail("Category slug exists")})
  {
  }

  /** A create either changes no row or answers 201 and appends exactly one
      row, which carries the body's fields (the column defaults where the body
      had `None`), a fresh id from the sequence, and is what the response
      returns. */
  lemma CreateAppendsOne(rows: seq<Category>, nextId: int, data: CategoryCreate)
    ensures var o := Create(rows, nextId, data);
      o.rows == rows || (o.response.status == 201 && |o.rows| == |rows| + 1 && o.rows[..|rows|] == rows)
    ensures var o := Create(rows, nextId, data);
      o.response.status == 201 ==>
        var c := o.rows[|rows|];
        && |o.rows| == |rows| + 1
        && c.name == data.name && c.slug == data.slug && c.parentId == data.parentId
        && c.isActive == (if data.isActive.Some? then data.isActive.value else false)
        && c.level == (if data.level.Some? then data.level.value else 100)
        && c.id == nextId && !HasId(rows, c.id)
        && o.response.body == Record(CategoryReturn(
             CategoryBase(c.name, c.slug, Some(c.isActive), Some(c.level), c.parentId), c.id))
  {
  }

  /** When the body supplies `is_active` and `level`, the 201 response echoes
      the validated body exactly, plus the new id. */
  lemma EchoesBody(rows: seq<Category>, nextId: int, data: CategoryCreate)
    requires data.isActive.Some? && data.level.Some?
    requires Create(rows, nextId, data).response.status == 201
    ensures Create(rows, nextId, data).response.body == Record(CategoryReturn(data, nextId))
  {
  }

  /** If the table satisfied every constraint before a create (`ValidTable`
      includes slug uniqueness and (name, level) uniqueness), it still does
      after it, and the sequence stays above every id. */
  lemma {:induction false} CreatePreservesValidTable(rows: seq<Category>, nextId: int, data: CategoryCreate)
    requires ValidTable(rows) && IdsBelow(rows, nextId)
    ensures var o := Create(rows, nextId, data);
      ValidTable(o.rows) && IdsBelow(o.rows, o.nextId)
  {
    var o := Create(rows, nextId, data);
    if o.response.status == 201 {
      AdmitsIff(rows, NewRow(nextId, data));
      assert o.rows == rows + [NewRow(nextId, data)];
    }
  }

  /** When the body gives a level, a create that passes the duplicate check
      never trips a uniqueness constraint of the store: it succeeds exactly
      when the driver can send the body, the row fits its columns, the id
      sequence is not exhausted and the parent exists (or is the new row
      itself). */
  lemma {:induction false} CheckCompleteWhenLevelGiven(rows: seq<Category>, nextId: int, data: CategoryCreate)
    requires CheckExisting(rows, data).None? && data.level.Some?
    requires IdsBelow(rows, nextId)
    ensures Create(rows, nextId, data).response.status == 201 <==>
      && Sendable(data)
      && IsInt32(nextId) && IsInt32(data.level.value)
      && (data.parentId.Some? ==> IsInt32(data.parentId.value))
      && 1 <= |data.name| <= NameMaxLength && 1 <= |data.slug| <= SlugMaxLength
      && (data.parentId.Some? ==> HasId(rows, data.parentId.value) || data.parentId.value == nextId)
  {
    var c := NewRow(nextId, data);
    var t := rows + [c];
    assert forall i :: 0 <= i < |rows| ==> !Matches(rows[i], data);
    assert forall i :: 0 <= i < |rows| ==> t[i] == rows[i];
    assert t[|rows|] == c;
    if c.parentId.Some? {
      var p := c.parentId.value;
      if HasId(rows, p) {
        HasIdAppend(rows, c, p);
      }
      if HasId(t, p) && p != nextId {
        var j :| 0 <= j < |t| && t[j].id == p;
        assert j < |rows|;
      }
    }
  }

  /** The store refuses a row in one of two ways, both answering 500 with
      the table unchanged. A value its columns cannot hold is refused before
      the INSERT draws an id, so the sequence stays. A key or foreign-key
      violation is found while the row goes in, after an id was drawn. For
      example, level 2^32 on an empty table leaves the next id at 1. */
  lemma StoreRefusals(rows: seq<Category>, nextId: int, data: CategoryCreate)
    requires Sendable(data) && CheckExisting(rows, data).None?
    ensures var c := NewRow(nextId, data); var o := Create(rows, nextId, data);
      !ColumnsAccept(c) ==>
        o == Outcome(Response(500, Detail("Internal Server Error")), rows, nextId)
    ensures var c := NewRow(nextId, data); var o := Create(rows, nextId, data);
      ColumnsAccept(c) && IsInt32(nextId) && !KeysFree(rows, c) ==>
        o == Outcome(Response(500, Detail("Internal Server Error")), rows, nextId + 1)
    ensures Create([], 1, CategoryBase("A", "a", Some(false), Some(0x1_0000_0000), None))
      == Outcome(Response(500, Detail("Internal Server Error")), [], 1)
  {
  }

  /** An explicit `"level": null` slips past the duplicate check: the lookup
      compares with `IS NULL` and finds nothing, the store then writes the
      default level 100 and its (name, level) constraint rejects the row, so
      the client gets 500 where the same body with `"level": 100` gets 400. */
  lemma NullLevelSlipsPastCheck()
    ensures
      var rows := [Category(1, "Shoes", "shoes", false, 100, None)];
      var withNull := CategoryBase("Shoes", "shoes-2", Some(false), None, None);
      var withLevel := CategoryBase("Shoes", "shoes-2", Some(false), Some(100), None);
      && CheckExisting(rows, withNull) == None
      && Create(rows, 2, withNull) == Outcome(Response(500, Detail("Internal Server Error")), rows, 3)
      && Create(rows, 2, withLevel) == Outcome(Response(400, Detail("Category name and level exists")), rows, 2)
  {
  }

  /** A body that fails validation answers 422 with the rejected fields and
      changes nothing; a valid one goes through `Create`. */
  lemma InvalidBodyChangesNothing(rows: seq<Category>, nextId: int, p: Payload)
    requires !Acceptable(p.name) || !Acceptable(p.slug)
    ensures var o := Post(rows, nextId, p);
      && o.response.status == 422 && o.response.body == Errors(Validate(p).error)
      && o.rows == rows && o.nextId == nextId
  {
  }

  /** Every stored row of a valid table passes response validation both as a
      `CategoryReturn` and as a `CategoryDeleteReturn`. */
  lemma StoredRowsSerialize(rows: seq<Category>, i: int)
    requires ValidTable(rows) && 0 <= i < |rows|
    ensures MakeReturn(ToReturn(rows[i]).base, rows[i].id) == Ok(ToReturn(rows[i]))
    ensures MakeDeleteReturn(rows[i].id, rows[i].name) == Ok(CategoryDeleteReturn(rows[i].id, rows[i].name))
  {
  }

  /** Two creates on an empty table: `{name: "Shoes", slug: "shoes"}`, then
      `{name: "Shoes", slug: "shoes-2"}` (both at the default level) fails
      with the name-and-level message; `{name: "A", slug: "x"}`, then
      `{name: "B", slug: "x"}` fails with the slug message. */
  lemma TwoCreateScenarios()
    ensures
      var first := Post([], 1, Payload(Given("Shoes"), Given("shoes"), Absent, Absent, Absent));
      && first.response.status == 201
      && Post(first.rows, first.nextId, Payload(Given("Shoes"), Given("shoes-2"), Absent, Absent, Absent)).response
         == Response(400, Detail("Category name and level exists"))
    ensures
      var first := Post([], 1, Payload(Given("A"), Given("x"), Absent, Absent, Absent));
      && first.response.status == 201
      && Post(first.rows, first.nextId, Payload(Given("B"), Given("x"), Absent, Absent, Absent)).response
         == Response(400, Detail("Category slug exists"))
  {
  }

  /** The table of categories, updated in place by the create handler. */
  class CategoryTable {
    var rows: seq<Category>
    var nextId: int

    ghost predicate Valid()
      reads this
    {
      ValidTable(rows) && 1 <= nextId && IdsBelow(rows, nextId)
    }

    constructor ()
      ensures Valid() && rows == [] && nextId == 1
    {
      rows := [];
      nextId := 1;
    }

    /** `create_category`, with the body already validated. */
    method CreateCategory(data: CategoryCreate) returns (resp: Response)
      requires Valid()
      modifies this
      ensures Valid()
      ensures Outcome(resp, rows, nextId) == Create(old(rows), old(nextId), data)
    {
      if !Sendable(data) {
        resp := Response(StatusServerError, Detail(ServerErrorDetail));
        return;
      }
      var conflict := CheckExisting(rows, data);
      if conflict.Some? {
        resp := Response(ConflictStatus, Detail(DetailOf(conflict.value)));
        return;
      }
      var c := NewRow(nextId, data);
      if !ColumnsAccept(c) || !IsInt32(nextId) {
        resp := Response(StatusServerError, Detail(ServerErrorDetail));
        return;
      }
      nextId := nextId + 1;
      if !Admits(rows, c) {
        resp := Response(StatusServerError, Detail(ServerErrorDetail));
        return;
      }
      AdmitsIff(rows, c);
      rows := rows + [c];
      resp := Response(StatusCreated, Record(ToReturn(c)));
    }

    /** `POST /category/`: validation of the body, then `create_category`. */
    method PostCategory(p: Payload) returns (resp: Response)
      requires Valid()
      modifies this
      ensures Valid()
      ensures Outcome(resp, rows, nextId) == Post(old(rows), old(nextId), p)
    {
      var v := Validate(p);
      if v.Err? {
        resp := Response(StatusUnprocessable, Errors(v.error));
        return;
      }
      resp := CreateCategory(v.value);
    }
  }
}
