# Category creation in the catalog service

This project models the category-creation slice of a FastAPI/SQLAlchemy
catalog service. It covers four parts:

- the `category` table: its columns, CHECK and UNIQUE constraints, and the
  self-referencing foreign key (`Models`, `models.dfy`);
- validation and defaulting of a request body as `CategoryBase` /
  `CategoryCreate` / `CategoryUpdate`, and the response shapes
  `CategoryReturn` and `CategoryDeleteReturn` (`CategorySchema`,
  `category_schema.dfy`);
- the duplicate check `check_existing_category`. It finds the first row with
  the same slug, or with the same name and level, and classifies the conflict
  (`CategoryUtils`, `category_utils.dfy`);
- the create handler (`CategoryRoutes`, `category_routes.dfy`). The pure
  function `Create` (and `Post`, which validates first) gives the response,
  the new table and the next id of the store's id sequence. The class
  `CategoryTable` holds the rows and the sequence, and its methods
  `CreateCategory` and `PostCategory` update them in place, proved equal to
  those functions while keeping the table valid.

Behaviours of the code that the model keeps:

- A body may send an explicit `null` for `is_active`, `level` or
  `parent_id`, because those fields are `Optional`. Validation then gives
  `None`. The ORM leaves `None` columns out of the INSERT, so the stored row
  gets the column default (`false`, `100`).
- The duplicate check compares a `None` level with `IS NULL`, which matches no
  stored row. A body with `"level": null` whose name is already stored at level
  100 therefore passes the check. The store's (name, level) constraint then
  rejects the insert and the client gets 500, where `"level": 100` gets 400
  (`NullLevelSlipsPastCheck`). With a level given, the check catches every
  uniqueness violation before the store does (`CheckCompleteWhenLevelGiven`).
- The handler catches no store error, so every refusal below answers 500 and
  leaves the table unchanged.
  - A name or slug holding a NUL character cannot be sent by the database
    driver, so the duplicate check's lookup fails and no id is drawn.
  - A value the columns cannot hold (name over 100 characters, slug over 120,
    a level or parent id outside 32 bits) is refused while the INSERT is
    planned, before an id is drawn. So is an insert after the 32-bit id
    sequence is exhausted.
  - A key or foreign-key violation is found while the row goes in, after the
    INSERT drew an id. That id is used up, because sequence values are not
    rolled back.
- Reusing a stored slug is not always reported as "Category slug exists".
  Only the first matching row decides. If that row has the candidate's name
  and level, the message is "Category name and level exists", even when
  another row holds the slug (`SlugReuseCanReportNameLevel`). One might
  expect a reused slug always to get the slug message, but the code lets the
  first match decide.
- "First" means first in table order. The query has no `ORDER BY`.

## Model

| member | source | states |
|---|---|---|
| `Models.Admits` | app/models.py:23-35 | The store's acceptance of one new row: the row fits its columns (32-bit id, level and parent id, name 1..100 characters, slug 1..120), and no stored row has its id, its slug or its (name, level), and its parent is in the table with the row added. Its meaning is stated by `AdmitsIff`, and its use by `CreatePreservesValidTable` and `StoreRefusals` |
| `Models.AdmitsIff` | app/models.py:23-35 | On a table that meets every constraint (32-bit ids and levels, name 1..100 characters, slug 1..120, unique id, unique slug, unique (name, level), parent ids present), the store admits a new row if and only if the table with that row appended still meets every constraint |
| `CategorySchema.StringError` | app/schemas/category_schema.py:6-7 | A required string field draws no error exactly when it is present, not null, and at least one character long |
| `CategorySchema.Validate` | app/schemas/category_schema.py:5-18 | A body is accepted if and only if `name` and `slug` are both present, non-null and non-empty. On failure each rejected required field is reported exactly once, name before slug, each with the reason it was rejected. On success name and slug are kept. Absent optional fields become `is_active = false`, `level = 100` and `parent_id = None`. Given values are kept, and an explicit null becomes `None`. `CategoryCreate` and `CategoryUpdate` are the same type, so they accept the same bodies |
| `CategorySchema.MakeDeleteReturn` | app/schemas/category_schema.py:21-23 | A delete response is valid exactly when the name is non-empty, and it then carries that id and name |
| `CategorySchema.MakeReturn` | app/schemas/category_schema.py:26-27 | A create response is a `CategoryBase` record plus an integer id. It is valid exactly when name and slug are non-empty, and it then carries that record and id unchanged |
| `CategoryUtils.FirstMatch` | app/utils/category_utils.py:8-18 | The lookup finds nothing exactly when no row has the candidate's slug or its (name, level). Otherwise it returns the index of the first such row in table order |
| `CategoryUtils.CheckExisting` | app/utils/category_utils.py:7-28 | There is a conflict if and only if some row has the candidate's slug, or its name and level. The conflict is "name and level exists" exactly when the first match has the candidate's name and level, whether or not it also has the slug. It is "slug exists" exactly when the first match differs in name or level |
| `CategoryUtils.OnlyFirstMatchDecides` | app/utils/category_utils.py:8-18 | Once a prefix of the table yields a conflict, rows stored after it, matching or not, do not change the reported conflict |
| `CategoryUtils.SameNameOtherLevelAllowed` | app/utils/category_utils.py:11-15 | A name stored only at other levels, with no stored row sharing the slug, is not a conflict |
| `CategoryUtils.SlugReuseRejected` | app/utils/category_utils.py:8-28 | A stored slug always yields a conflict. It is "slug exists" when no row has the candidate's name and level |
| `CategoryUtils.NameLevelReuseRejected` | app/utils/category_utils.py:8-25 | A stored (name, level) pair yields "name and level exists" when every row sharing the candidate's slug also shares its name and level |
| `CategoryUtils.SlugReuseCanReportNameLevel` | app/utils/category_utils.py:18-25 | A table where the slug belongs to the second row and the first row has the candidate's name and level reports "name and level exists", not "slug exists" |
| `CategoryRoutes.NewRow` | app/routers/category_routes.py:17 | The row built from a validated body carries the given id and the body's name, slug and parent. Its `is_active` is true exactly when the body said true, and its level is the body's level, or 100 when the body had none |
| `CategoryRoutes.Create` | app/routers/category_routes.py:12-22 | A create answers 201, 400 or 500. Only a 201 changes the table, and it appends exactly the row built from the body; every other answer leaves the table as it was. The sequence advances by at most one, and always on a 201. Its cases are stated by the lemmas below |
| `CategoryRoutes.Post` | app/routers/category_routes.py:13-14 | A POST answers 422 exactly when the body fails validation, and then changes neither the table nor the sequence |
| `CategoryRoutes.ConflictChangesNothing` | app/routers/category_routes.py:16 | When the check finds a conflict, nothing is inserted and no id is drawn. The response is 400 with the check's detail, or 500 when the driver cannot send the name or slug |
| `CategoryRoutes.DuplicateSlugRejected` | tests/integration/test_integrate_category.py:113-126 | Creating with a stored slug leaves the table and sequence unchanged. It answers 400 with one of the two conflict messages, or 500 when the driver cannot send the name or slug |
| `CategoryRoutes.CreateAppendsOne` | app/routers/category_routes.py:17-22 | A create either leaves every row as it was, or answers 201 and appends exactly one row after the unchanged old rows. That row has the body's name, slug and parent, and its `is_active` and level (defaults where the body had `None`). Its id comes from the sequence and differs from every stored id. The response body is that row |
| `CategoryRoutes.EchoesBody` | tests/unit/test_unit_category.py:40-43 | When the body gives `is_active` and `level`, a 201 response is the validated body plus the new id |
| `CategoryRoutes.CreatePreservesValidTable` | app/routers/category_routes.py:16-19 | If the table met every constraint before a create (slug uniqueness and (name, level) uniqueness included) and all ids are below the sequence, both still hold after it, whatever the outcome |
| `CategoryRoutes.CheckCompleteWhenLevelGiven` | app/routers/category_routes.py:16-19 | When the body gives a level and the check passes, the create answers 201 exactly when the driver can send the body, the row fits its column limits, the id sequence is not exhausted and the parent exists or is the new row itself. A uniqueness constraint never fires at the store |
| `CategoryRoutes.StoreRefusals` | app/routers/category_routes.py:17-19 | After the check passes, a value the columns cannot hold answers 500 with the table and the sequence unchanged. A key or foreign-key violation answers 500 with the table unchanged and one id used up. Level 2^32 on an empty table leaves the next id at 1 |
| `CategoryRoutes.NullLevelSlipsPastCheck` | app/utils/category_utils.py:11-15 | With "Shoes" stored at level 100, a body "Shoes"/"shoes-2" with `level: null` passes the check and is then refused by the store (500, table unchanged, one id consumed). The same body with level 100 gets 400 "Category name and level exists" |
| `CategoryRoutes.InvalidBodyChangesNothing` | app/routers/category_routes.py:13-14 | A body with a missing, null or empty name or slug answers 422 with exactly the field errors validation reports and changes neither the table nor the sequence |
| `CategoryRoutes.StoredRowsSerialize` | app/routers/category_routes.py:12 | Every row of a valid table passes response validation as a `CategoryReturn` and as a `CategoryDeleteReturn` |
| `CategoryRoutes.TwoCreateScenarios` | app/routers/category_routes.py:12-22 | On an empty table, "Shoes"/"shoes" is created with 201. "Shoes"/"shoes-2" afterwards fails with "Category name and level exists". Separately, "A"/"x" is created and "B"/"x" afterwards fails with "Category slug exists" |
| `CategoryRoutes.CategoryTable.constructor` | app/models.py:20-23 | An empty table whose id sequence starts at 1 |
| `CategoryRoutes.CategoryTable.CreateCategory` | app/routers/category_routes.py:12-22 | Keeps the table valid and produces exactly the response, rows and next id that `Create` gives for the old state |
| `CategoryRoutes.CategoryTable.PostCategory` | app/routers/category_routes.py:12-16 | Keeps the table valid and produces exactly the response, rows and next id that `Post` gives: 422 on an invalid body, otherwise `Create` |

## Left out

- The list, get-by-slug, update and delete endpoints: the route file defines only create. `CategoryUpdate` is modelled only as the body it validates, and `CategoryDeleteReturn` only as a response shape.
- Session and framework wiring (`APIRouter`, `Depends(get_db_session)`, the module-level `SessionLocal()`, `db.add`/`commit`/`refresh`): an insert is an append to the row sequence, and `refresh` is the id the sequence assigns.
- Concurrent requests and the check-then-insert race between them: the table is used by one request at a time.
- The text of the 500 body, which the framework produces, and logging.
- pydantic's coercion of values of other types (such as `"5"` for an integer) and its errors for optional fields of the wrong type: a body's fields are already typed in the model. Extra body fields are ignored by the framework and are not modelled.
- The store's silent truncation of trailing spaces beyond a varchar limit: a name over 100 characters is always rejected in the model.
- Inserts that bypass the handler (rows written with explicit ids) as operations: `CategoryTable` and `CreatePreservesValidTable` keep every id below the sequence's next value. `Create` and `CreateAppendsOne` hold for any table, and a clash with an explicitly inserted id is a key violation (500).
- The other tables of app/models.py (products, product lines, images, seasonal events, attributes, attribute values, product types and their join tables): they are declarations with no operations.
