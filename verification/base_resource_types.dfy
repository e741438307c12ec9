/**
 * The catalog of base resource types: one row per type name that workers
 * advertise (`git`, `s3`, ...), found or created by an insert-or-merge upsert.
 *
 * The table `base_resource_types` is the class `Catalog`; its rows are a map
 * keyed by the unique column `name`. `Find` is the read-only lookup, `Create`
 * the single `INSERT ... ON CONFLICT (name) DO UPDATE` statement and
 * `FindOrCreate` the protocol that chooses between them. Storage failures and
 * the decoding of the `defaults` column are inputs of the operations.
 */
module BaseResourceTypes {

  datatype Option<+T> = None | Some(value: T)

  datatype Result<+T, +E> = Success(value: T) | Failure(error: E)

  /** A decoded `defaults` document; its values are kept opaque. */
  type Source = map<string, string>

  /** A catalog definition as callers name it: by id when `id > 0`, otherwise by name. */
  datatype BaseResourceType = BaseResourceType(id: int, name: string)

  /** The record handed back to every caller. */
  datatype UsedBaseResourceType = UsedBaseResourceType(
    id: int,
    name: string,
    uniqueVersionHistory: bool,
    defaults: Source)

  /**
   * One stored row, apart from its key `name`. `defaults` is the raw text of
   * the column; `None` is SQL NULL.
   */
  datatype Row = Row(id: int, uniqueVersionHistory: bool, defaults: Option<string>)

  datatype Error =
    | StorageError(detail: string)  // any storage failure other than "no rows"
    | DecodeError(detail: string)   // the stored defaults text does not decode

  /** What `Find` reports: a row, the normal "absent" outcome, or an error. */
  datatype FindResult = Found(used: UsedBaseResourceType) | NotFound | Failed(error: Error)

  /** The state a call leaves behind, together with what it returns. */
  datatype Outcome = Outcome(
    rows: map<string, Row>,
    nextId: int,
    result: Result<UsedBaseResourceType, Error>)

  type Decoder = string -> Result<Source, string>

  /** The primary key: no two names share an id. */
  ghost predicate IdsUnique(rows: map<string, Row>) {
    forall a, b :: a in rows && b in rows && rows[a].id == rows[b].id ==> a == b
  }

  /** The table invariant: positive, distinct ids, all below the next id to hand out. */
  ghost predicate WellFormed(rows: map<string, Row>, nextId: int) {
    && 0 < nextId
    && (forall n :: n in rows ==> 0 < rows[n].id < nextId)
    && IdsUnique(rows)
  }

  /** Every non-null `defaults` column decodes. */
  ghost predicate DefaultsDecode(rows: map<string, Row>, decode: Decoder) {
    forall n :: n in rows && rows[n].defaults.Some? ==> decode(rows[n].defaults.value).Success?
  }

  /** Whether the row stored under `name` is the one the selector `brt` asks for. */
  predicate Selects(brt: BaseResourceType, name: string, row: Row) {
    if brt.id > 0 then row.id == brt.id else name == brt.name
  }

  /** Turns a matched row into the record returned, decoding `defaults` when it is not NULL. */
  function Materialize(name: string, row: Row, decode: Decoder): (r: FindResult)
    ensures !r.NotFound?
    ensures r.Failed? <==> row.defaults.Some? && decode(row.defaults.value).Failure?
    ensures r.Failed? ==> r.error == DecodeError(decode(row.defaults.value).error)
    ensures r.Found? ==>
      && r.used.id == row.id
      && r.used.name == name
      && r.used.uniqueVersionHistory == row.uniqueVersionHistory
      && (row.defaults.None? ==> r.used.defaults == map[])
      && (row.defaults.Some? ==> decode(row.defaults.value) == Success(r.used.defaults))
  {
    match row.defaults
    case None => Found(UsedBaseResourceType(row.id, name, row.uniqueVersionHistory, map[]))
    case Some(text) =>
      match decode(text)
      case Failure(e) => Failed(DecodeError(e))
      case Success(d) => Found(UsedBaseResourceType(row.id, name, row.uniqueVersionHistory, d))
  }

  /**
   * The `SELECT ... FOR SHARE` lookup. A storage failure wins; otherwise an
   * unmatched selector is `NotFound` (not an error), and a matched row is
   * returned with its defaults decoded, or a decode error.
   */
  function Find(rows: map<string, Row>, brt: BaseResourceType, readFault: Option<string>, decode: Decoder): (r: FindResult)
    requires brt.id > 0 ==> IdsUnique(rows)
    ensures readFault.Some? ==> r == Failed(StorageError(readFault.value))
    ensures r.NotFound? <==> readFault.None? && forall n :: n in rows ==> !Selects(brt, n, rows[n])
    ensures r.Found? ==>
      var n := r.used.name;
      && n in rows
      && Selects(brt, n, rows[n])
      && r.used.id == rows[n].id
      && r.used.uniqueVersionHistory == rows[n].uniqueVersionHistory
      && (rows[n].defaults.None? ==> r.used.defaults == map[])
      && (rows[n].defaults.Some? ==> decode(rows[n].defaults.value) == Success(r.used.defaults))
    ensures r.Failed? && readFault.None? ==>
      exists n :: n in rows && Selects(brt, n, rows[n]) && rows[n].defaults.Some?
        && decode(rows[n].defaults.value) == Failure(r.error.detail) && r.error.DecodeError?
    ensures readFault.None? && brt.id <= 0 && brt.name in rows ==>
      (r.Found? <==> rows[brt.name].defaults.None? || decode(rows[brt.name].defaults.value).Success?)
  {
    if readFault.Some? then
      Failed(StorageError(readFault.value))
    else if brt.id > 0 then
      if exists n :: n in rows && rows[n].id == brt.id then
        var n :| n in rows && rows[n].id == brt.id;
        Materialize(n, rows[n], decode)
      else
        NotFound
    else if brt.name in rows then
      Materialize(brt.name, rows[brt.name], decode)
    else
      NotFound
  }

  /** Whether `FindOrCreate` returns the found row without writing. */
  predicate FastPath(rows: map<string, Row>, brt: BaseResourceType, unique: bool, readFault: Option<string>, decode: Decoder)
    requires brt.id > 0 ==> IdsUnique(rows)
    ensures FastPath(rows, brt, unique, readFault, decode) ==>
      readFault.None? && exists n :: n in rows && Selects(brt, n, rows[n]) && rows[n].uniqueVersionHistory == unique
    ensures readFault.None? && brt.id <= 0 ==>
      (FastPath(rows, brt, unique, readFault, decode) <==>
         && brt.name in rows
         && rows[brt.name].uniqueVersionHistory == unique
         && (rows[brt.name].defaults.Some? ==> decode(rows[brt.name].defaults.value).Success?))
  {
    var f := Find(rows, brt, readFault, decode);
    f.Found? && f.used.uniqueVersionHistory == unique
  }

  /**
   * The table after `INSERT (name, unique) ON CONFLICT (name) DO UPDATE SET
   * unique_version_history = EXCLUDED.unique_version_history OR
   * base_resource_types.unique_version_history`, with `freshId` the id an
   * insert would receive.
   */
  ghost function Upsert(rows: map<string, Row>, name: string, unique: bool, freshId: int): (r: map<string, Row>)
    ensures r.Keys == rows.Keys + {name}
    ensures r[name].uniqueVersionHistory == (unique || (name in rows && rows[name].uniqueVersionHistory))
    ensures name in rows ==> r[name].id == rows[name].id && r[name].defaults == rows[name].defaults
    ensures name !in rows ==> r[name].id == freshId && r[name].defaults.None?
    ensures forall n :: n in rows && n != name ==> r[n] == rows[n]
  {
    if name in rows then
      rows[name := rows[name].(uniqueVersionHistory := unique || rows[name].uniqueVersionHistory)]
    else
      rows[name := Row(freshId, unique, None)]
  }

  /** The effect and result of `create`: a failed write changes nothing; a successful one returns the merged row. */
  ghost function CreateOutcome(rows: map<string, Row>, nextId: int, name: string, unique: bool, writeFault: Option<string>): (o: Outcome)
    ensures writeFault.Some? ==> o == Outcome(rows, nextId, Failure(StorageError(writeFault.value)))
    ensures writeFault.None? ==>
      && o.result.Success?
      && o.rows.Keys == rows.Keys + {name}
      && o.result.value.name == name
      && o.result.value.id == o.rows[name].id
      && o.result.value.uniqueVersionHistory == o.rows[name].uniqueVersionHistory
      && o.result.value.uniqueVersionHistory == (unique || (name in rows && rows[name].uniqueVersionHistory))
      && o.result.value.defaults == map[]
      && (name in rows ==> o.rows[name] == rows[name].(uniqueVersionHistory := o.result.value.uniqueVersionHistory))
      && (name in rows ==> o.nextId == nextId)
      && (name !in rows && WellFormed(rows, nextId) ==> forall n :: n in rows ==> rows[n].id != o.result.value.id)
      && (forall n :: n in rows && n != name ==> o.rows[n] == rows[n])
    ensures WellFormed(rows, nextId) ==> WellFormed(o.rows, o.nextId)
  {
    if writeFault.Some? then
      Outcome(rows, nextId, Failure(StorageError(writeFault.value)))
    else
      var merged := Upsert(rows, name, unique, nextId);
      var saved := merged[name];
      Outcome(merged, if name in rows then nextId else nextId + 1,
              Success(UsedBaseResourceType(saved.id, name, saved.uniqueVersionHistory, map[])))
  }

  /** The effect and result of `FindOrCreate`. */
  ghost function FindOrCreateOutcome(
    rows: map<string, Row>, nextId: int, brt: BaseResourceType, unique: bool,
    readFault: Option<string>, writeFault: Option<string>, decode: Decoder): (o: Outcome)
    requires brt.id > 0 ==> IdsUnique(rows)
    // an error from the lookup is returned as it is, before any write
    ensures Find(rows, brt, readFault, decode).Failed? ==>
      o == Outcome(rows, nextId, Failure(Find(rows, brt, readFault, decode).error))
    // the fast path returns the found row and writes nothing
    ensures FastPath(rows, brt, unique, readFault, decode) ==>
      o == Outcome(rows, nextId, Success(Find(rows, brt, readFault, decode).used))
    ensures o.result.Failure? <==>
      Find(rows, brt, readFault, decode).Failed? || (!FastPath(rows, brt, unique, readFault, decode) && writeFault.Some?)
    ensures o.result.Failure? ==> o.rows == rows && o.nextId == nextId
    // off the fast path, a successful result comes from the write and carries no defaults
    ensures !FastPath(rows, brt, unique, readFault, decode) && o.result.Success? ==> o.result.value.defaults == map[]
    // the returned record mirrors the row now stored under its name
    ensures o.result.Success? ==>
      var u := o.result.value;
      u.name in o.rows && u.id == o.rows[u.name].id && u.uniqueVersionHistory == o.rows[u.name].uniqueVersionHistory
    // registering by name leaves the flag at the OR of the request and the old flag
    ensures brt.id <= 0 && o.result.Success? ==>
      && o.result.value.name == brt.name
      && o.rows[brt.name].uniqueVersionHistory == (unique || (brt.name in rows && rows[brt.name].uniqueVersionHistory))
    // existing rows keep id and defaults, and their flag is never lowered
    ensures forall n :: n in rows ==>
      && n in o.rows
      && o.rows[n].id == rows[n].id
      && o.rows[n].defaults == rows[n].defaults
      && (rows[n].uniqueVersionHistory ==> o.rows[n].uniqueVersionHistory)
    // only the requested name is written, and a new row has no defaults
    ensures forall n :: n in o.rows && n != brt.name ==> n in rows && o.rows[n] == rows[n]
    ensures brt.name in o.rows && brt.name !in rows ==> o.rows[brt.name].defaults.None?
    ensures WellFormed(rows, nextId) ==> WellFormed(o.rows, o.nextId)
  {
    var f := Find(rows, brt, readFault, decode);
    if f.Failed? then
      Outcome(rows, nextId, Failure(f.error))
    else if f.Found? && f.used.uniqueVersionHistory == unique then
      Outcome(rows, nextId, Success(f.used))
    else
      CreateOutcome(rows, nextId, brt.name, unique, writeFault)
  }

  /** The table `base_resource_types`. */
  class Catalog {
    var rows: map<string, Row>
    var nextId: int

    ghost predicate Valid()
      reads this
    {
      WellFormed(rows, nextId)
    }

    constructor ()
      ensures Valid() && rows == map[] && nextId == 1
    {
      rows := map[];
      nextId := 1;
    }

    /** `create`: the single atomic insert-or-merge statement, returning the row's id and merged flag. */
    method Create(name: string, unique: bool, writeFault: Option<string>) returns (r: Result<UsedBaseResourceType, Error>)
      requires Valid()
      modifies this
      ensures Valid()
      ensures Outcome(rows, nextId, r) == CreateOutcome(old(rows), old(nextId), name, unique, writeFault)
    {
      if writeFault.Some? {
        return Failure(StorageError(writeFault.value));
      }
      if name in rows {
        var row := rows[name];
        rows := rows[name := row.(uniqueVersionHistory := unique || row.uniqueVersionHistory)];
      } else {
        rows := rows[name := Row(nextId, unique, None)];
        nextId := nextId + 1;
      }
      var saved := rows[name];
      r := Success(UsedBaseResourceType(saved.id, name, saved.uniqueVersionHistory, map[]));
    }

    /** `FindOrCreate`: look up by the selector, return a matching row as it is, otherwise upsert by name. */
    method FindOrCreate(brt: BaseResourceType, unique: bool, readFault: Option<string>, writeFault: Option<string>, decode: Decoder)
      returns (r: Result<UsedBaseResourceType, Error>)
      requires Valid()
      modifies this
      ensures Valid()
      ensures Outcome(rows, nextId, r) == FindOrCreateOutcome(old(rows), old(nextId), brt, unique, readFault, writeFault, decode)
    {
      var f := Find(rows, brt, readFault, decode);
      if f.Failed? {
        return Failure(f.error);
      }
      if f.Found? && f.used.uniqueVersionHistory == unique {
        return Success(f.used);
      }
      r := Create(brt.name, unique, writeFault);
    }
  }
}
