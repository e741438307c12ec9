/**
 * Properties of the find-or-create protocol over one call, two calls in a
 * row, and any sequence of registrations by name.
 */
module CatalogProperties {
  import opened BaseResourceTypes

  /** One worker registration: `FindOrCreate` by name with the requested flag. */
  datatype Registration = Registration(name: string, unique: bool)

  datatype Trace = Trace(rows: map<string, Row>, nextId: int, results: seq<Result<UsedBaseResourceType, Error>>)

  /** Runs the registrations one after another, with no storage failure. */
  ghost function RegisterAll(rows: map<string, Row>, nextId: int, regs: seq<Registration>, decode: Decoder): (t: Trace)
    ensures |t.results| == |regs|
    ensures forall n :: n in rows ==>
      && n in t.rows
      && t.rows[n].id == rows[n].id
      && t.rows[n].defaults == rows[n].defaults
      && (rows[n].uniqueVersionHistory ==> t.rows[n].uniqueVersionHistory)
    ensures WellFormed(rows, nextId) ==> WellFormed(t.rows, t.nextId)
    ensures DefaultsDecode(rows, decode) ==> DefaultsDecode(t.rows, decode)
    decreases |regs|
  {
    if regs == [] then
      Trace(rows, nextId, [])
    else
      var o := FindOrCreateOutcome(rows, nextId, BaseResourceType(0, regs[0].name), regs[0].unique, None, None, decode);
      var t := RegisterAll(o.rows, o.nextId, regs[1..], decode);
      Trace(t.rows, t.nextId, [o.result] + t.results)
  }

  /** A fault-free registration by name succeeds whenever the defaults stored under that name decode. */
  lemma RegistrationSucceeds(rows: map<string, Row>, nextId: int, name: string, unique: bool, decode: Decoder)
    requires name in rows && rows[name].defaults.Some? ==> decode(rows[name].defaults.value).Success?
    ensures FindOrCreateOutcome(rows, nextId, BaseResourceType(0, name), unique, None, None, decode).result.Success?
  {
  }

  /**
   * Monotonic OR: after any sequence of registrations, a name has a row
   * exactly when it had one or was registered, and its flag is set exactly
   * when it was set before or some registration of that name asked for it.
   */
  lemma {:induction false} FlagIsOrOfRegistrations(rows: map<string, Row>, nextId: int, regs: seq<Registration>, decode: Decoder, n: string)
    requires DefaultsDecode(rows, decode)
    ensures var t := RegisterAll(rows, nextId, regs, decode);
      && (n in t.rows <==> n in rows || exists i :: 0 <= i < |regs| && regs[i].name == n)
      && (n in t.rows ==>
            (t.rows[n].uniqueVersionHistory <==>
               (n in rows && rows[n].uniqueVersionHistory) || exists i :: 0 <= i < |regs| && regs[i] == Registration(n, true)))
    decreases |regs|
  {
    if regs != [] {
      var r := regs[0];
      RegistrationSucceeds(rows, nextId, r.name, r.unique, decode);
      var o := FindOrCreateOutcome(rows, nextId, BaseResourceType(0, r.name), r.unique, None, None, decode);
      FlagIsOrOfRegistrations(o.rows, o.nextId, regs[1..], decode, n);
      var t := RegisterAll(rows, nextId, regs, decode);
      assert t.rows == RegisterAll(o.rows, o.nextId, regs[1..], decode).rows;
      // shift the witnesses of the tail by one
      if exists i :: 0 <= i < |regs[1..]| && regs[1..][i].name == n {
        var i :| 0 <= i < |regs[1..]| && regs[1..][i].name == n;
        assert regs[i + 1].name == n;
      }
      if exists i :: 0 <= i < |regs[1..]| && regs[1..][i] == Registration(n, true) {
        var i :| 0 <= i < |regs[1..]| && regs[1..][i] == Registration(n, true);
        assert regs[i + 1] == Registration(n, true);
      }
      if exists i :: 0 <= i < |regs| && regs[i].name == n {
        var i :| 0 <= i < |regs| && regs[i].name == n;
        if i > 0 { assert regs[1..][i - 1].name == n; }
      }
      if exists i :: 0 <= i < |regs| && regs[i] == Registration(n, true) {
        var i :| 0 <= i < |regs| && regs[i] == Registration(n, true);
        if i > 0 { assert regs[1..][i - 1] == Registration(n, true); }
      }
    }
  }

  /**
   * Every registration in a sequence succeeds and returns the id and name of
   * the row that ends up stored under its name.
   */
  lemma {:induction false} ResultsMatchFinalRows(rows: map<string, Row>, nextId: int, regs: seq<Registration>, decode: Decoder)
    requires DefaultsDecode(rows, decode)
    ensures var t := RegisterAll(rows, nextId, regs, decode);
      forall i :: 0 <= i < |regs| ==>
        && t.results[i].Success?
        && t.results[i].value.name == regs[i].name
        && regs[i].name in t.rows
        && t.results[i].value.id == t.rows[regs[i].name].id
    decreases |regs|
  {
    if regs != [] {
      var o := FindOrCreateOutcome(rows, nextId, BaseResourceType(0, regs[0].name), regs[0].unique, None, None, decode);
      FirstRegistration(rows, nextId, regs[0], decode);
      ResultsMatchFinalRows(o.rows, o.nextId, regs[1..], decode);
      var t := RegisterAll(rows, nextId, regs, decode);
      var tail := RegisterAll(o.rows, o.nextId, regs[1..], decode);
      assert t.rows == tail.rows && t.results == [o.result] + tail.results;
      forall i | 0 <= i < |regs|
        ensures t.results[i].Success? && t.results[i].value.name == regs[i].name
        ensures regs[i].name in t.rows && t.results[i].value.id == t.rows[regs[i].name].id
      {
        if i > 0 {
          assert t.results[i] == tail.results[i - 1];
          assert regs[i] == regs[1..][i - 1];
        }
      }
    }
  }

  /** The first registration of a sequence succeeds and returns the row now stored under its name. */
  lemma FirstRegistration(rows: map<string, Row>, nextId: int, r: Registration, decode: Decoder)
    requires DefaultsDecode(rows, decode)
    ensures var o := FindOrCreateOutcome(rows, nextId, BaseResourceType(0, r.name), r.unique, None, None, decode);
      && o.result.Success?
      && o.result.value.name == r.name
      && r.name in o.rows
      && o.result.value.id == o.rows[r.name].id
      && DefaultsDecode(o.rows, decode)
  {
    RegistrationSucceeds(rows, nextId, r.name, r.unique, decode);
  }

  /**
   * Uniqueness: every registration of one name in a sequence, the first and
   * all later ones, resolves to one shared id; different names get different ids.
   */
  lemma OneIdPerName(rows: map<string, Row>, nextId: int, regs: seq<Registration>, decode: Decoder, i: nat, j: nat)
    requires WellFormed(rows, nextId) && DefaultsDecode(rows, decode)
    requires i < |regs| && j < |regs|
    ensures var t := RegisterAll(rows, nextId, regs, decode);
      && t.results[i].Success? && t.results[j].Success?
      && (t.results[i].value.id == t.results[j].value.id <==> regs[i].name == regs[j].name)
  {
    ResultsMatchFinalRows(rows, nextId, regs, decode);
  }

  /**
   * Idempotence: after a successful registration by name, repeating it with
   * no storage failure succeeds with the same id, name and flag and leaves the
   * table as it was. It skips the write exactly when the first call returned
   * the flag that was requested; a request for `false` on a row whose flag is
   * set writes again every time, though the write changes nothing.
   */
  lemma RepeatIsIdempotent(
    rows: map<string, Row>, nextId: int, brt: BaseResourceType, unique: bool,
    readFault: Option<string>, writeFault: Option<string>, decode: Decoder)
    requires brt.id <= 0
    requires FindOrCreateOutcome(rows, nextId, brt, unique, readFault, writeFault, decode).result.Success?
    ensures var o1 := FindOrCreateOutcome(rows, nextId, brt, unique, readFault, writeFault, decode);
      var o2 := FindOrCreateOutcome(o1.rows, o1.nextId, brt, unique, None, None, decode);
      && o2.result.Success?
      && o2.result.value.id == o1.result.value.id
      && o2.result.value.name == o1.result.value.name
      && o2.result.value.uniqueVersionHistory == o1.result.value.uniqueVersionHistory
      && o2.rows == o1.rows && o2.nextId == o1.nextId
      && (FastPath(o1.rows, brt, unique, None, decode) <==> o1.result.value.uniqueVersionHistory == unique)
  {
  }

  /**
   * The fast path skips only a write that would change nothing: when a row
   * found by name already carries the requested flag, the upsert would leave
   * the table, the id supply and the returned id, name and flag as they are.
   */
  lemma FastPathSkipsNoOpWrite(rows: map<string, Row>, nextId: int, brt: BaseResourceType, unique: bool, decode: Decoder)
    requires brt.id <= 0
    requires FastPath(rows, brt, unique, None, decode)
    ensures var c := CreateOutcome(rows, nextId, brt.name, unique, None);
      var f := Find(rows, brt, None, decode);
      && c.rows == rows && c.nextId == nextId
      && c.result.value.id == f.used.id
      && c.result.value.name == f.used.name
      && c.result.value.uniqueVersionHistory == f.used.uniqueVersionHistory
  {
  }

  /**
   * The worked example: on an empty catalog, `git` registered with false,
   * then true, then false gets one id throughout and a flag that is raised
   * and not lowered again; an unknown name is absent, not an error.
   */
  lemma GitScenario(decode: Decoder)
    ensures var regs := [Registration("git", false), Registration("git", true), Registration("git", false)];
      var t := RegisterAll(map[], 1, regs, decode);
      && t.results[0].Success? && t.results[1].Success? && t.results[2].Success?
      && t.results[0].value.id == t.results[1].value.id == t.results[2].value.id
      && !t.results[0].value.uniqueVersionHistory
      && t.results[0].value.defaults == map[]
      && t.results[1].value.uniqueVersionHistory
      && t.results[2].value.uniqueVersionHistory
      && "git" in t.rows && t.rows["git"].uniqueVersionHistory
    ensures Find(map[], BaseResourceType(0, "unknown"), None, decode) == NotFound
  {
  }
}
