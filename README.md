# Product catalogue API, modelled in Dafny

A model of a small HTTP API that manages a catalogue of products (`Producto`):
create, list, fetch by id, partial update and delete, over one relational
table. The model covers what the five request handlers decide (which checks
run, in which order, which status and message each failure gets, which
fields an update touches, when a lookup yields 404) and the constraints of the
`productos` table, and proves that every rejected request leaves the table
as it was.

- `models.dfy` (module `Models`): the `Product` record, the column limits
  (`nombre` at most 100 characters, `descripcion` nullable and at most 255),
  and `Storable`, the non-negative price and stock every stored row keeps.
- `schemas.dfy` (module `Schemas`): a request body as a map from field name
  to a JSON value (`null`, boolean, integer, other number, string); the
  validation the schema generated from the table performs, in full mode for
  create (`LoadFull`: required fields, types, widths, unknown keys refused) and
  in partial mode for update (`LoadPartial`: only the keys present, unknown
  keys dropped); serialisation of a row (`Dump`) and the round trips between
  the two.
- `app.dfy` (module `App`): the table as a class `Catalogue` holding
  `rows: map<int, Product>`, the store's id assignment (`NextRowId`), and
  one method per handler returning a status code with a product, a list, a
  notice or an error.
- `scenarios.dfy` (module `Scenarios`): request sequences proved from the
  handlers' contracts (create then fetch, delete twice, the freed id being
  reused, a price-only update, the empty store).

Behaviours of the code that a reader may not expect:

- A `nombre` of length 0 is accepted: the column is only NOT NULL and
  String(100), and nothing checks for an empty string.
- Ids can be reused. The table is an SQLite rowid table without the
  AUTOINCREMENT keyword (SQLAlchemy emits it only on request). A new row gets
  one more than the largest id in use, so deleting the newest row frees its id
  for the next create (`Scenarios.DeletedTopIdIsReused`).
- An update that fails a business rule after some fields were already assigned
  to the loaded object changes nothing stored. The handler returns before
  `commit`, and the request's session is discarded uncommitted. The model
  assigns the fields to a local copy of the row and writes it back only at
  the commit.
- Create refuses unknown keys, because the shared schema instance keeps
  marshmallow's default `unknown=RAISE`. Update drops them, because it
  builds its schema with `unknown='EXCLUDE'`.

Nothing here is executed; every property below is proved by the verifier.

## Model

| member | source | states |
|---|---|---|
| `Schemas.LoadFull` | models.py:14-26 | a create body loads exactly when `nombre`, `precio` and `stock` are present and every key is a column whose value the generated field accepts; otherwise the error names exactly the missing, mistyped, over-long or unknown fields; a loaded draft carries the body's values, and `descripcion` is NULL when absent |
| `Schemas.LoadedRowFitsColumns` | models.py:16-20 | a loaded draft satisfies the `nombre` ≤ 100 and `descripcion` ≤ 255 column widths, whatever id it then gets |
| `Schemas.LoadPartial` | app.py:167-177 | an update body loads exactly when every column key it carries has an acceptable value (unknown keys do not matter); otherwise the error names exactly the bad column fields; the patch holds a value for exactly the keys present, equal to the body's |
| `Schemas.LoadPartialIgnoresUnknownKeys` | app.py:169-173 | adding a key that is not a column does not change the partial load's outcome |
| `Schemas.Dump` | schemas.py:10-21 | serialising a row emits all five fields |
| `Schemas.LoadDumpRoundTrip` | schemas.py:10-28 | a row that fits the columns, serialised and loaded again in full or in partial mode, gives back its own field values |
| `Schemas.DumpLoadRoundTrip` | tests/test_app.py:58-79 | the serialised row built from a loaded body echoes the body's `nombre`, `stock`, `descripcion` (null when absent) and the value of `precio`, plus the assigned id |
| `App.NextRowIdUnique` | models.py:14 | the rule "one more than the largest id, 1 for an empty table" determines the new id |
| `App.Catalogue.NextRowId` | models.py:14 | the id assigned on insert is positive, larger than every id in the table (so not held by any row), and one more than the largest id, or 1 when the table is empty |
| `App.Catalogue.Create` | app.py:110-124 | a body that fails loading gives 400 "Datos de entrada inválidos" with the failed fields, including every body missing `nombre`, `precio` or `stock`; then a negative price gives 400 "El precio no puede ser negativo" whatever the stock; then a negative stock gives 400 "El stock no puede ser negativo"; every 400 leaves the table unchanged; otherwise 201 with a product whose fields are the loaded values and whose id is fresh, and the table gains exactly that row |
| `App.Catalogue.List` | app.py:146-148 | status 200 with every stored row exactly once, in ascending id order, and `[]` for an empty table |
| `App.EnumerationSize` | app.py:146-148 | a listing has as many entries as the table has rows |
| `App.Catalogue.Get` | app.py:153-158 | a stored id gives 200 with that row; any other id gives 404 "Producto no encontrado" |
| `App.Catalogue.Update` | app.py:163-200 | an absent id gives 404 and a body failing the partial load gives 400 with the failed fields; then a negative `precio` gives 400 "El precio debe ser un número no negativo", checked before a negative `stock` gives 400 "El stock debe ser un entero no negativo"; every non-200 leaves the table unchanged; a 200 replaces that one row by the patched row, keeps all other rows, and returns the new row |
| `App.ApplyTouchesOnlySentFields` | app.py:179-192 | an accepted update keeps the id and every field whose key is absent, sets each present field to the sent value, sets `descripcion` to NULL when null is sent, and keeps a storable row storable |
| `App.Catalogue.Delete` | app.py:205-211 | a stored id gives 200 "Producto eliminado correctamente" and removes exactly that row; any other id gives 404 and changes nothing |
| `Scenarios.DeleteTwice` | app.py:205-211 | after a successful delete, a second delete and a fetch of the same id both give 404 |
| `Scenarios.CreateThenGet` | tests/test_app.py:58-79 | an accepted create answers 201, and fetching the new id returns the same product, with the sent `nombre`, `precio`, `stock` and `descripcion`, and a NULL `descripcion` when none was sent |
| `Scenarios.DeletedTopIdIsReused` | models.py:14 | creating a row, deleting it and creating again hands out the same id twice |
| `Scenarios.EmptyStore` | app.py:146-155 | on an empty store the listing is 200 `[]` and fetching id 99999 gives 404 |
| `Scenarios.PriceOnlyUpdate` | app.py:179-192 | updating only `precio` of `{nombre: "A", precio: 10, stock: 5}` gives `{nombre: "A", precio: 12, stock: 5}` |
| `Scenarios.BothNegativeReportsPrice` | app.py:115-118 | a create with both price and stock negative reports the price error and stores nothing |

## Left out

- API documentation generation (the Swagger configuration and the YAML docstrings): it produces no handler behaviour.
- Creating the instance folder, binding the extensions, `db.create_all` and `app.run`: start-up plumbing. The model's store starts empty (the `Catalogue` constructor).
- The global error handlers for 400, 404, 405, 500 and uncaught validation errors, and the update handler's 500 catch-all: they depend on framework dispatch and on exceptions raised inside libraries.
- config.py: only the database path and framework flags.
- `Producto.__repr__`: a debugging string that no handler uses.
- The JSON wire format, content types, key order in responses, SQLite storage and transactions, and the floating-point representation of `precio`, which is an exact real here. The library's Float field refuses a number beyond the range of a double, and the model accepts it.
- The exact texts of the schema's per-field messages: the model reports only which fields failed.
- `Schemas.LoadFull`: reduces marshmallow's coercions to strict type checks. Numeric strings and floats sent for an Integer field are refused here. The library's Float field accepts numeric strings, and its non-strict Integer field accepts any value `int()` can convert, truncating a fraction: a `stock` of 5.5 loads as 5, so the code's create answers 201 with stock 5 where the model answers 400, and the code's update passes the load and then fails its own integer check (app.py:190). With this choice the update handler's own type checks can never fail after loading; only their sign checks matter.
- `Schemas.LoadPartial`: an `id` key in a request body is type-checked and then ignored. The library's `load_instance` would use it to look up, or build, a row with that id.
- `App.Catalogue.Create`: an `id` key in the body is type-checked and then ignored, and the row always gets a new id. In the code, `load_instance` looks that id up first (app.py:111). If a row with that id is stored, its fields are overwritten with the body's and the answer is 201 with that id (app.py:120-124). If no row has that id, the new row is inserted under it, which may be 0 or negative and so outside the model's `Valid` invariant.
- `App.Catalogue.Update`: an `id` key in the body is type-checked and then ignored. In the code, the partial load (app.py:175) fetches the row with that id into the session. If that row is stored and is not the one in the URL, the load also writes the body's fields into that other row, and the commit (app.py:198) stores them.
- `App.Catalogue.Create`: an integer `stock` outside the 64-bit range of an SQLite INTEGER passes the load and the sign check here, and is stored with 201. In the code, the commit (app.py:121) raises, and the request ends in 500. An `id` key beyond 64 bits is accepted here too; in the code the load's instance lookup (app.py:111) raises first, and the request ends in 500.
- `App.Catalogue.Update`: an integer `stock` outside the 64-bit range of an SQLite INTEGER passes the load and the sign check here, and is stored with 200. In the code, the commit (app.py:198) raises, and the request ends in 500. A body `id` beyond 64 bits is ignored here, so the update answers 200; in the code the partial load's instance lookup (app.py:175) raises inside the `try`, and the answer is 500 "Ocurrió un error inesperado al actualizar el producto." (app.py:194-196).
- `App.Catalogue.Update`: a URL id above 2^63−1 is absent from the table here, so the answer is 404. In the code, the lookup `db.session.get` (app.py:163) passes it to the SQLite driver, which raises, and the request ends in 500 (app.py:222-226).
- `App.Catalogue.Get`: a URL id above 2^63−1 gives 404 here. In the code, the lookup (app.py:153) raises in the SQLite driver, and the request ends in 500 (app.py:222-226).
- `App.Catalogue.Delete`: a URL id above 2^63−1 gives 404 and changes nothing here. In the code, the lookup (app.py:205) raises in the SQLite driver, and the request ends in 500 (app.py:222-226); the table is unchanged there as well.
- A request body that is not a JSON object, or is missing: the model's body is always a field map.
- `App.Catalogue.NextRowId`: leaves out SQLite's random choice of rowid once the largest possible 64-bit rowid is in use.
