# Base resource type catalog: find-or-create

A Dafny model of the catalog of base resource types in Concourse's ATC
(`atc/db/base_resource_type.go`). Workers register the type names they support
(`git`, `s3`, ...). The table `base_resource_types` keeps one row per name: an
id, the flag `unique_version_history` and an optional `defaults` document.

- `BaseResourceTypes` (base_resource_types.dfy) holds the data model and the
  three operations:
  - `Find` is the read-only `SELECT ... FOR SHARE`. It looks up by id when
    `Id > 0` and by name otherwise. A missing row is `NotFound`, not an error.
    A non-NULL `defaults` column is decoded, and a decode failure is an error.
  - `Catalog.Create` is the single `INSERT ... ON CONFLICT (name) DO UPDATE`
    statement. It inserts a row with a fresh id, or ORs the requested flag into
    the existing row. It returns the row's id and merged flag, with empty
    defaults.
  - `Catalog.FindOrCreate` returns the found row unchanged when its flag
    equals the request. Otherwise it calls `Create`. An error from `Find` is
    returned before any write.
- `Catalog` is the table as a class. Its fields are `rows`, a map from name to
  row, and `nextId`, the id supply. Each method is proved against a ghost
  function of the old state (`CreateOutcome`, `FindOrCreateOutcome`). The
  properties are proved about those functions.
- `CatalogProperties` (catalog_properties.dfy) proves properties across calls:
  - idempotence of a repeated call;
  - the flag is the OR of every request for that name;
  - one id per name, and different ids for different names;
  - the fast path skips only a write that would change nothing.

Storage failures are inputs (`readFault`, `writeFault`: `Some(detail)` makes
that statement fail). So is the JSON decoder (`decode`). The model is
therefore deterministic.

Names are unique because the map is keyed by name. Ids are kept unique and
positive by the invariant `WellFormed`, which plays the part of the primary key.

Some points where the code differs from what one might expect, modelled as
the code has them:
- A request for `false` on a row whose flag is `true` never takes the fast
  path: the stored flag differs from the request. Every such call therefore
  runs the upsert, though the upsert changes nothing.
  `CatalogProperties.RepeatIsIdempotent` states exactly when a repeated call
  skips the write.
- The fast path returns the decoded `defaults`, but the write path always
  returns empty defaults. This holds even when the row has defaults.
- An insert never sets `defaults`, so a new row's `defaults` column is NULL.
  No statement in this file stores a row's defaults, so they must be written
  elsewhere.
- `FindOrCreate` passes its selector to `Find`. With `Id > 0` it therefore
  looks up by id, but it always writes by name.
- A row whose `defaults` do not decode makes every `FindOrCreate` of its name
  fail before the write.

## Model

| member | source | states |
|---|---|---|
| `BaseResourceTypes.Find` | atc/db/base_resource_type.go:50-83 | A read fault is returned as a storage error. `NotFound` happens exactly when no row matches the selector (id when `Id > 0`, else name). A found record carries that row's id, name and flag. Its defaults are empty for NULL and the decoded document otherwise. Any other failure is a decode failure of the matched row's defaults. |
| `BaseResourceTypes.Materialize` | atc/db/base_resource_type.go:74-82 | A matched row is never reported absent. The result is an error exactly when the defaults column is non-NULL and does not decode, and that error is the decoder's. Otherwise the record carries the row's id, name and flag, with empty defaults for NULL and the decoded document otherwise. |
| `BaseResourceTypes.FastPath` | atc/db/base_resource_type.go:43 | The fast path needs a fault-free read of a row that the selector matches and whose flag equals the request. By name, it is taken exactly when the row exists, its flag equals the request and its defaults decode. |
| `BaseResourceTypes.Upsert` | atc/db/base_resource_type.go:88-96 | The conflict-update result: the name is now present and its flag is the request OR the old flag. An existing row keeps its id and defaults. A new row gets the fresh id and NULL defaults. Every other row is unchanged. |
| `BaseResourceTypes.CreateOutcome` | atc/db/base_resource_type.go:85-105 | A write fault returns a storage error and leaves the table unchanged. Otherwise the returned record has the requested name, the stored id and the merged flag. Its defaults are empty even if the row had defaults. A new id is not used by any other row. The table invariant is preserved. |
| `BaseResourceTypes.FindOrCreateOutcome` | atc/db/base_resource_type.go:37-48 | A `Find` error is returned before any write. On the fast path the found row is returned and nothing changes. The call fails exactly on a `Find` error, or on a write fault off the fast path. A failed call changes nothing. By name, the stored flag becomes the request OR the old flag. A successful result off the fast path carries empty defaults. Existing rows keep their id and defaults, and their flag is never lowered. Only the requested name is written. The invariant is preserved. |
| `BaseResourceTypes.Catalog.Create` | atc/db/base_resource_type.go:85-105 | The new table, id supply and result are those of `CreateOutcome` on the old state. The invariant is kept. |
| `BaseResourceTypes.Catalog.FindOrCreate` | atc/db/base_resource_type.go:37-48 | The new table, id supply and result are those of `FindOrCreateOutcome` on the old state. The invariant is kept. |
| `CatalogProperties.RegisterAll` | atc/db/base_resource_type.go:88-95 | Across a sequence of fault-free registrations, every existing row keeps its id and defaults, and its flag is never lowered. The table invariant holds throughout, and so does "all defaults decode". |
| `CatalogProperties.RegistrationSucceeds` | atc/db/base_resource_type.go:74-80 | A fault-free registration by name succeeds when the defaults stored under that name decode. |
| `CatalogProperties.FlagIsOrOfRegistrations` | atc/db/base_resource_type.go:88-95 | After any sequence of registrations, a name has a row iff it had one or was registered. Its flag is set iff it was set before or some registration of the name asked for `true`. |
| `CatalogProperties.ResultsMatchFinalRows` | atc/db/base_resource_type.go:95-104 | Every registration in a sequence succeeds. It returns the requested name and the id of the row finally stored under that name. |
| `CatalogProperties.OneIdPerName` | atc/db/base_resource_type.go:89-95 | Two registrations in a sequence return the same id iff they name the same type. |
| `CatalogProperties.RepeatIsIdempotent` | atc/db/base_resource_type.go:43-47 | Repeating a successful call by name returns the same id, name and flag and leaves the table unchanged. The repeat skips the write iff the first call returned the requested flag. |
| `CatalogProperties.FastPathSkipsNoOpWrite` | atc/db/base_resource_type.go:43-45 | When the fast path is taken by name, the skipped upsert would leave the table and the model's `nextId` counter unchanged. It would also return the same id, name and flag. Running that upsert against PostgreSQL would still use up a sequence value on the conflict (see the id allocation line under "Left out"). |
| `CatalogProperties.GitScenario` | atc/db/base_resource_type.go:37-48 | On an empty catalog, registering `git` with false, then true, then false gives one id. The flags returned are false, true, true, and the first result has empty defaults. Looking up an unknown name is `NotFound`. |

## Left out

- Transactions, the `FOR SHARE` row lock and concurrent callers: each call is one atomic step on sequential state. Interleavings of concurrent calls are not modelled; the upsert is a single statement and is modelled as one.
- SQL text building (squirrel) and the database driver: replaced by operations on the map.
- JSON decoding of `defaults` into `atc.Source`: a parameter `decode`. `Source` is a map whose values are opaque strings.
- How PostgreSQL's sequence allocates ids: the model hands out `nextId` and counts up on insert. A real sequence may skip values, for example on a conflicting insert.
- Storage failures other than "no rows": the inputs `readFault` and `writeFault`. A failing statement leaves the table unchanged.
- Deletion of rows by the garbage collector (`gc.BaseResourceTypeCollector`): it is not part of this model.
- `BaseResourceTypes.Find`: when several rows have the id asked for, the query returns the first one. Here the primary key is assumed, so a by-id lookup requires ids to be unique.
