/** Request and response shapes of the category endpoints
    (app/schemas/category_schema.py): validation of an incoming JSON body and
    the defaults that fill the optional fields. */
module CategorySchema {
  import opened Wrappers

  /** Defaults of the optional fields of `CategoryBase`. */
  const DefaultIsActive := false
  const DefaultLevel := 100

  /** One field of a JSON body: left out, explicitly `null`, or a value. */
  datatype Field<T> = Absent | Null | Given(value: T)

  /** The body of a create or update request, field by field. */
  datatype Payload = Payload(
    name: Field<string>,
    slug: Field<string>,
    isActive: Field<bool>,
    level: Field<int>,
    parentId: Field<int>)

  /** The two required fields, which are the only ones that can be rejected. */
  datatype FieldName = NameField | SlugField

  /** Why a required string field was rejected: left out, not a string
      (`null`), or shorter than `min_length=1`. */
  datatype ErrorKind = Missing | StringType | StringTooShort

  datatype FieldError = FieldError(field: FieldName, kind: ErrorKind)

  /** A validated body. The optional fields stay `None` when the body sent
      an explicit `null`. */
  datatype CategoryBase = CategoryBase(
    name: string,
    slug: string,
    isActive: Option<bool>,
    level: Option<int>,
    parentId: Option<int>)

  /** `CategoryCreate` and `CategoryUpdate` add nothing to `CategoryBase`. */
  type CategoryCreate = CategoryBase
  type CategoryUpdate = CategoryBase

  /** The response of create: a validated record plus its id. */
  datatype CategoryReturn = CategoryReturn(base: CategoryBase, id: int)

  /** The response of delete: the id and the name of the removed record. */
  datatype CategoryDeleteReturn = CategoryDeleteReturn(id: int, name: string)

  /** A required string field is accepted when it is present, a string and
      at least one character long. */
  predicate Acceptable(f: Field<string>) {
    f.Given? && |f.value| >= 1
  }

  function Required(p: Payload, f: FieldName): Field<string> {
    match f
    case NameField => p.name
    case SlugField => p.slug
  }

  /** The error a required string field draws, if any. */
  function StringError(f: Field<string>): (e: Option<ErrorKind>)
    ensures e.None? <==> Acceptable(f)
  {
    match f
    case Absent => Some(Missing)
    case Null => Some(StringType)
    case Given(s) => if |s| < 1 then Some(StringTooShort) else None
  }

  function ErrorsOf(f: FieldName, e: Option<ErrorKind>): seq<FieldError> {
    match e
    case None => []
    case Some(k) => [FieldError(f, k)]
  }

  /** An optional field with a default: left out gives the default, `null`
      gives `None`, a value is kept. */
  function WithDefault<T>(f: Field<T>, default: Option<T>): Option<T> {
    match f
    case Absent => default
    case Null => None
    case Given(v) => Some(v)
  }

  /** Validation of a body as `CategoryBase` (and so as `CategoryCreate` and
      `CategoryUpdate`): every rejected required field is reported, in
      declaration order; on success the optional fields are defaulted. */
  function Validate(p: Payload): (r: Result<CategoryBase, seq<FieldError>>)
    ensures r.Ok? <==> Acceptable(p.name) && Acceptable(p.slug)
    ensures r.Ok? ==> r.value.name == p.name.value && r.value.slug == p.slug.value
    ensures r.Ok? ==> |r.value.name| >= 1 && |r.value.slug| >= 1
    ensures r.Ok? ==>
      && (p.isActive.Absent? ==> r.value.isActive == Some(false))
      && (p.level.Absent? ==> r.value.level == Some(100))
      && (p.parentId.Absent? ==> r.value.parentId == None)
    ensures r.Ok? ==>
      && (p.isActive.Given? ==> r.value.isActive == Some(p.isActive.value))
      && (p.level.Given? ==> r.value.level == Some(p.level.value))
      && (p.parentId.Given? ==> r.value.parentId == Some(p.parentId.value))
    ensures r.Ok? ==>
      && (p.isActive.Null? ==> r.value.isActive == None)
      && (p.level.Null? ==> r.value.level == None)
      && (p.parentId.Null? ==> r.value.parentId == None)
    ensures r.Err? ==>
      |r.error| == (if Acceptable(p.name) then 0 else 1) + (if Acceptable(p.slug) then 0 else 1)
    ensures r.Err? && !Acceptable(p.name) ==>
      r.error[0] == FieldError(NameField, StringError(p.name).value)
    ensures r.Err? && !Acceptable(p.slug) ==>
      r.error[|r.error| - 1] == FieldError(SlugField, StringError(p.slug).value)
    ensures r.Err? ==> forall e :: e in r.error ==>
      StringError(Required(p, e.field)) == Some(e.kind)
    ensures r.Err? ==> forall f :: !Acceptable(Required(p, f)) ==>
      exists e :: e in r.error && e.field == f
  {
    var errors := ErrorsOf(NameField, StringError(p.name))
                + ErrorsOf(SlugField, StringError(p.slug));
    if errors != [] then
      Err(errors)
    else
      Ok(CategoryBase(
        p.name.value,
        p.slug.value,
        WithDefault(p.isActive, Some(DefaultIsActive)),
        WithDefault(p.level, Some(DefaultLevel)),
        WithDefault(p.parentId, None)))
  }

  /** Validation of a delete response: the name must not be empty. */
  function MakeDeleteReturn(id: int, name: string): (r: Result<CategoryDeleteReturn, seq<FieldError>>)
    ensures r.Ok? <==> |name| >= 1
    ensures r.Ok? ==> r.value.id == id && r.value.name == name
    ensures r.Err? ==> r.error == [FieldError(NameField, StringTooShort)]
  {
    if |name| < 1 then Err([FieldError(NameField, StringTooShort)])
    else Ok(CategoryDeleteReturn(id, name))
  }

  /** Validation of a create response: the record part must pass the same
      string constraints as a request body. */
  function MakeReturn(base: CategoryBase, id: int): (r: Result<CategoryReturn, seq<FieldError>>)
    ensures r.Ok? <==> |base.name| >= 1 && |base.slug| >= 1
    ensures r.Ok? ==> r.value.base == base && r.value.id == id
  {
    var p := Payload(Given(base.name), Given(base.slug),
                     FieldOf(base.isActive), FieldOf(base.level), FieldOf(base.parentId));
    match Validate(p)
    case Err(e) => Err(e)
    case Ok(b) => Ok(CategoryReturn(b, id))
  }

  function FieldOf<T>(o: Option<T>): Field<T> {
    match o
    case None => Null
    case Some(v) => Given(v)
  }
}
