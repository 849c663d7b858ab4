/**
 * The crash-safe save of `FileUtils.saveSecrets`: pick two fresh temporary names,
 * then (1) write the payload to the "new" file, (2) move the primary aside to the
 * "old" name, (3) move the "new" file onto the primary name, (4) delete the "old"
 * file. Each step has its own recovery action when it fails.
 */
module AtomicSave {
  import opened Strings
  import opened Storage

  /** `0` and the three error-message resource ids that `saveSecrets` returns. */
  datatype SaveCode = Saved | ErrorSaveSecrets | ErrorCannotMoveExisting | ErrorCannotMoveNew

  /** The outcome of every fallible operation of one save. */
  datatype SaveFaults = SaveFaults(
    write: WriteFault,
    moveExisting: bool,  // step 2 rename of the primary
    moveNew: bool,       // step 3 rename of the "new" file
    moveBack: bool,      // the reversal after a failed step 3
    deleteNew: bool,     // deleting the "new" file on an error path
    deleteOld: bool)     // step 4

  const NoSaveFaults := SaveFaults(Completes, false, false, false, false, false)

  /** The directory after every primitive operation of the save, and the code returned. */
  datatype SaveRun = SaveRun(trace: seq<FileMap>, code: SaveCode)

  /** Candidate temporary names: `prefix + tag`, then `prefix + tag + k` for k = 0, 1, ... */
  function TempName(prefix: string, tag: string, k: int): string {
    prefix + tag + (if k < 0 then "" else Decimal(k))
  }

  /** The shape of the timestamp prefix `t.yyyyMMdd-HHmmss.`. */
  predicate TimestampPrefix(prefix: string) {
    forall c | c in prefix :: c in "t.-0123456789"
  }

  /** Temporary names a save may use in directory `d`. */
  predicate FreshTempNames(d: FileMap, tempn: string, tempo: string) {
    tempn !in d && tempo !in d && tempn != tempo && IsNew(tempn) && IsOld(tempo)
  }

  lemma {:induction false} TempNameInjective(prefix: string, t1: string, t2: string, j: int, k: int)
    requires |t1| == |t2| && j >= -1 && k >= -1
    requires TempName(prefix, t1, j) == TempName(prefix, t2, k)
    ensures t1 == t2 && j == k
  {
    var a, b := TempName(prefix, t1, j), TempName(prefix, t2, k);
    var p := |prefix|;
    assert t1 == a[p..p + |t1|] == b[p..p + |t2|] == t2;
    var sj := if j < 0 then "" else Decimal(j);
    var sk := if k < 0 then "" else Decimal(k);
    assert sj == a[p + |t1|..] == b[p + |t2|..] == sk;
    if j >= 0 && k >= 0 {
      DecimalInjective(j, k);
    }
  }

  /** Names built from a timestamp prefix carry exactly the tag they were built with. */
  lemma TempNameTags(prefix: string, k: int)
    requires TimestampPrefix(prefix) && k >= -1
    ensures IsNew(TempName(prefix, "new", k)) && IsOld(TempName(prefix, "old", k))
    ensures TempName(prefix, "new", k) != TempName(prefix, "old", k)
  {
    var n, o := TempName(prefix, "new", k), TempName(prefix, "old", k);
    assert OccursAt(n, "new", |prefix|);
    assert OccursAt(o, "old", |prefix|);
    assert n[|prefix|] != o[|prefix|];
    forall c | c in o
      ensures c != 'w'
    {
      assert c in prefix || c in "old" || c in (if k < 0 then "" else Decimal(k));
    }
    MissingCharNotContained(o, "new", 'w');
  }

  /** `y` is one of the candidate names tried before candidate `k`. */
  ghost predicate IsCandidateBefore(prefix: string, y: string, k: int) {
    exists j :: -1 <= j < k && (y == TempName(prefix, "new", j) || y == TempName(prefix, "old", j))
  }

  lemma CandidateNotSeen(prefix: string, k: int, x: string, seen: set<string>)
    requires k >= -1
    requires x == TempName(prefix, "new", k) || x == TempName(prefix, "old", k)
    requires forall y | y in seen :: IsCandidateBefore(prefix, y, k)
    ensures x !in seen
  {
    if x in seen {
      var j :| -1 <= j < k && (x == TempName(prefix, "new", j) || x == TempName(prefix, "old", j));
      var t := if x == TempName(prefix, "new", k) then "new" else "old";
      var u := if x == TempName(prefix, "new", j) then "new" else "old";
      TempNameInjective(prefix, t, u, k, j);
    }
  }

  lemma SeenStep(prefix: string, seen: set<string>, k: int, x: string)
    requires k >= -1
    requires forall y | y in seen :: IsCandidateBefore(prefix, y, k)
    requires x == TempName(prefix, "new", k) || x == TempName(prefix, "old", k)
    ensures forall y | y in seen + {x} :: IsCandidateBefore(prefix, y, k + 1)
  {
    forall y | y in seen + {x}
      ensures IsCandidateBefore(prefix, y, k + 1)
    {
      if y in seen {
        var j :| -1 <= j < k && (y == TempName(prefix, "new", j) || y == TempName(prefix, "old", j));
      }
    }
  }

  /**
   * What the counter loop knows after rejecting the candidates before `k`: each of
   * them had a name in `keys`, and `seen` collects, within `keys`, one taken name
   * per rejected candidate.
   */
  ghost predicate Rejected(prefix: string, keys: set<string>, seen: set<string>, k: int) {
    && seen <= keys
    && (forall y | y in seen :: IsCandidateBefore(prefix, y, k))
    && (forall j | -1 <= j < k :: TempName(prefix, "new", j) in keys || TempName(prefix, "old", j) in keys)
  }

  /** Rejecting candidate `k` adds a name not seen before, so the loop terminates. */
  lemma RejectStep(prefix: string, keys: set<string>, seen: set<string>, k: int) returns (x: string)
    requires k >= -1 && Rejected(prefix, keys, seen, k)
    requires TempName(prefix, "new", k) in keys || TempName(prefix, "old", k) in keys
    ensures Rejected(prefix, keys, seen + {x}, k + 1)
    ensures |keys - (seen + {x})| < |keys - seen|
  {
    x := if TempName(prefix, "new", k) in keys then TempName(prefix, "new", k) else TempName(prefix, "old", k);
    CandidateNotSeen(prefix, k, x, seen);
    assert x in keys - seen && keys - (seen + {x}) == (keys - seen) - {x};
    SeenStep(prefix, seen, k, x);
  }

  /**
   * The counter loop of `saveSecrets`: the first candidate pair of which neither
   * name exists.
   */
  method PickTempNames(dir: Directory, prefix: string) returns (tempn: string, tempo: string, ghost k: int)
    requires TimestampPrefix(prefix)
    ensures k >= -1 && tempn == TempName(prefix, "new", k) && tempo == TempName(prefix, "old", k)
    ensures FreshTempNames(dir.files, tempn, tempo)
    ensures forall j | -1 <= j < k :: TempName(prefix, "new", j) in dir.files || TempName(prefix, "old", j) in dir.files
  {
    tempn := prefix + "new";
    tempo := prefix + "old";
    assert tempn == TempName(prefix, "new", -1) && tempo == TempName(prefix, "old", -1);
    k := -1;
    var i := 0;
    ghost var seen: set<string> := {};
    while tempn in dir.files || tempo in dir.files
      invariant k >= -1 && i == k + 1
      invariant tempn == TempName(prefix, "new", k) && tempo == TempName(prefix, "old", k)
      invariant Rejected(prefix, dir.files.Keys, seen, k)
      decreases |dir.files.Keys - seen|
    {
      ghost var x := RejectStep(prefix, dir.files.Keys, seen, k);
      seen := seen + {x};
      tempn := prefix + "new" + Decimal(i);
      tempo := prefix + "old" + Decimal(i);
      k := i;
      i := i + 1;
    }
    TempNameTags(prefix, k);
  }

  /** Step 1 counts as failed: the source catches exceptions of the write but not of `close()`. */
  predicate Step1Fails(w: WriteFault, checkClose: bool) {
    w.NotCreated? || w.Interrupted? || (checkClose && w.LostOnClose?)
  }

  /** `run` preceded by the states in `before`. */
  function After(before: seq<FileMap>, run: SaveRun): SaveRun {
    SaveRun(before + run.trace, run.code)
  }

  /**
   * One save. With `checkClose` false this is the code as written, where a failing
   * `close()` goes unnoticed; with `checkClose` true a failing `close()` is a step 1
   * failure.
   */
  function Save(d0: FileMap, tempn: string, tempo: string, payload: Bytes, now: int,
                f: SaveFaults, checkClose: bool): (run: SaveRun)
    ensures |run.trace| > 0
  {
    var s1 := Written(d0, tempn, payload, now, f.write);
    if Step1Fails(f.write, checkClose) then
      SaveRun([s1, Deleted(s1, tempn, f.deleteNew)], ErrorSaveSecrets)
    else
      After([s1], MoveAside(s1, tempn, tempo, f))
  }

  /** Step 2, from the directory `s1` holding the written "new" file. */
  function MoveAside(s1: FileMap, tempn: string, tempo: string, f: SaveFaults): (run: SaveRun)
    ensures |run.trace| > 0
  {
    if SecretsFileName !in s1 then
      Promote(s1, tempn, tempo, f)
    else if f.moveExisting then
      SaveRun([s1, Deleted(s1, tempn, f.deleteNew)], ErrorCannotMoveExisting)
    else
      var s2 := Renamed(s1, SecretsFileName, tempo, f.moveExisting);
      After([s2], Promote(s2, tempn, tempo, f))
  }

  /** Steps 3 and 4, from the directory `s2` in which the primary has been moved aside. */
  function Promote(s2: FileMap, tempn: string, tempo: string, f: SaveFaults): (run: SaveRun)
    ensures |run.trace| > 0
  {
    var s3 := Renamed(s2, tempn, SecretsFileName, f.moveNew);
    if !RenameSucceeds(s2, tempn, f.moveNew) then
      var s4 := Renamed(s3, tempo, SecretsFileName, f.moveBack);
      SaveRun([s3, s4, Deleted(s4, tempn, f.deleteNew)], ErrorCannotMoveNew)
    else
      SaveRun([s3, Deleted(s3, tempo, f.deleteOld)], Saved)
  }

  /**
   * Deleting, one after another, the "old" files among `names`, the delete at
   * position `i` failing when `i` is in `failing`: the directory after each name.
   */
  function Purge(d: FileMap, names: seq<string>, failing: set<nat>): (trace: seq<FileMap>)
    ensures |trace| == |names|
    decreases |names|
  {
    if names == [] then []
    else
      var i := |names| - 1;
      var t := Purge(d, names[..i], failing);
      var prev := if i == 0 then d else t[i - 1];
      t + [if IsOld(names[i]) then Deleted(prev, names[i], i in failing) else prev]
  }

  /**
   * The corrected save: while the primary exists, first delete every "old" file
   * left over from an earlier save, giving up with an error if one survives; then
   * save, reporting a failing `close()`. Without a primary nothing is purged.
   */
  function PurgedSave(d0: FileMap, listing: seq<string>, failing: set<nat>, tempn: string, tempo: string,
                      payload: Bytes, now: int, f: SaveFaults): (run: SaveRun)
    ensures |run.trace| > 0
  {
    if SecretsFileName !in d0 then Save(d0, tempn, tempo, payload, now, f, true)
    else
      var p := Purge(d0, listing, failing);
      var d1 := if p == [] then d0 else Last(p);
      if exists n | n in d1 :: IsOld(n) then SaveRun(p + [d1], ErrorCannotMoveExisting)
      else After(p, Save(d1, tempn, tempo, payload, now, f, true))
  }

  function Last(trace: seq<FileMap>): FileMap
    requires |trace| > 0
  {
    trace[|trace| - 1]
  }

  /** `saveSecrets` into the primary file of `dir`, as written. */
  method SaveSecrets(dir: Directory, prefix: string, payload: Bytes, now: int, faults: SaveFaults)
    returns (code: SaveCode, ghost tempn: string, ghost tempo: string)
    requires TimestampPrefix(prefix)
    modifies dir
    ensures FreshTempNames(old(dir.files), tempn, tempo)
    ensures var run := Save(old(dir.files), tempn, tempo, payload, now, faults, false);
      && code == run.code
      && dir.history == old(dir.history) + run.trace
      && dir.files == Last(run.trace)
  {
    ghost var h0 := dir.history;
    var n, o, k := PickTempNames(dir, prefix);
    tempn, tempo := n, o;
    // Step 1
    dir.Write(n, payload, now, faults.write);
    if faults.write.NotCreated? || faults.write.Interrupted? {
      var deleted := dir.Delete(n, faults.deleteNew);
      code := ErrorSaveSecrets;
      return;
    }
    ghost var h1 := dir.history;
    code := MoveAsideStep(dir, n, o, faults);
    assert dir.history == h0 + (h1[|h0|..] + dir.history[|h1|..]);
  }

  /** Steps 2 to 4 of `saveSecrets`. */
  method MoveAsideStep(dir: Directory, tempn: string, tempo: string, faults: SaveFaults) returns (code: SaveCode)
    modifies dir
    ensures var run := MoveAside(old(dir.files), tempn, tempo, faults);
      && code == run.code
      && dir.history == old(dir.history) + run.trace
      && dir.files == Last(run.trace)
  {
    if SecretsFileName in dir.files {
      var moved := dir.Rename(SecretsFileName, tempo, faults.moveExisting);
      if !moved {
        var deleted := dir.Delete(tempn, faults.deleteNew);
        code := ErrorCannotMoveExisting;
        return;
      }
      ghost var h2 := dir.history;
      code := PromoteStep(dir, tempn, tempo, faults);
      assert dir.history == old(dir.history) + (h2[|old(dir.history)|..] + dir.history[|h2|..]);
    } else {
      code := PromoteStep(dir, tempn, tempo, faults);
    }
  }

  /** Steps 3 and 4 of `saveSecrets`. */
  method PromoteStep(dir: Directory, tempn: string, tempo: string, faults: SaveFaults) returns (code: SaveCode)
    modifies dir
    ensures var run := Promote(old(dir.files), tempn, tempo, faults);
      && code == run.code
      && dir.history == old(dir.history) + run.trace
      && dir.files == Last(run.trace)
  {
    // Step 3
    var promoted := dir.Rename(tempn, SecretsFileName, faults.moveNew);
    if !promoted {
      var restored := dir.Rename(tempo, SecretsFileName, faults.moveBack);
      var deleted := dir.Delete(tempn, faults.deleteNew);
      code := ErrorCannotMoveNew;
      return;
    }
    // Step 4: a failure here is only logged
    var removed := dir.Delete(tempo, faults.deleteOld);
    code := Saved;
  }

  /**
   * What a save run leaves behind, for every combination of faults: which code is
   * returned, what the primary then holds, which temporary files remain, and that no
   * other file is touched.
   */
  ghost predicate SaveOutcome(d0: FileMap, tempn: string, tempo: string, payload: Bytes, now: int,
                              f: SaveFaults, checkClose: bool, run: SaveRun)
    requires |run.trace| > 0
  {
    var r := Last(run.trace);
    var primary := SecretsFileName;
    && (forall n | n != primary && n != tempn && n != tempo :: (n in r <==> n in d0) && (n in r ==> r[n] == d0[n]))
    && (run.code == ErrorSaveSecrets <==> Step1Fails(f.write, checkClose))
    && (run.code == ErrorCannotMoveExisting <==> !Step1Fails(f.write, checkClose) && primary in d0 && f.moveExisting)
    && (run.code == Saved <==> !Step1Fails(f.write, checkClose) && !(primary in d0 && f.moveExisting) && !f.moveNew)
    && (run.code in {ErrorSaveSecrets, ErrorCannotMoveExisting} ==>
          && (primary in r <==> primary in d0) && (primary in r ==> r[primary] == d0[primary])
          && tempo !in r
          && (tempn in r <==> f.deleteNew && !f.write.NotCreated?))
    && (run.code == ErrorCannotMoveNew ==>
          && (tempn in r <==> f.deleteNew)
          && (primary in d0 && !f.moveBack ==> primary in r && r[primary] == d0[primary] && tempo !in r)
          && (primary in d0 && f.moveBack ==> primary !in r && tempo in r && r[tempo] == d0[primary])
          && (primary !in d0 ==> primary !in r && tempo !in r))
    && (run.code == Saved ==>
          && primary in r && r[primary] == FileEntry(Kept(payload, f.write), now)
          && (checkClose ==> r[primary].data == payload)
          && tempn !in r
          && (tempo in r <==> primary in d0 && f.deleteOld)
          && (tempo in r ==> r[tempo] == d0[primary]))
  }

  /** `SaveOutcome` holds of every save. */
  lemma SaveOutcomes(d0: FileMap, tempn: string, tempo: string, payload: Bytes, now: int,
                     f: SaveFaults, checkClose: bool)
    requires FreshTempNames(d0, tempn, tempo)
    ensures SaveOutcome(d0, tempn, tempo, payload, now, f, checkClose, Save(d0, tempn, tempo, payload, now, f, checkClose))
  {
    if Step1Fails(f.write, checkClose) || (SecretsFileName in d0 && f.moveExisting) {
      EarlyOutcomes(d0, tempn, tempo, payload, now, f, checkClose);
    } else {
      PromoteOutcomes(d0, tempn, tempo, payload, now, f, checkClose);
    }
  }

  /** The saves that stop at step 1 or 2. */
  lemma EarlyOutcomes(d0: FileMap, tempn: string, tempo: string, payload: Bytes, now: int,
                      f: SaveFaults, checkClose: bool)
    requires FreshTempNames(d0, tempn, tempo)
    requires Step1Fails(f.write, checkClose) || (SecretsFileName in d0 && f.moveExisting)
    ensures SaveOutcome(d0, tempn, tempo, payload, now, f, checkClose, Save(d0, tempn, tempo, payload, now, f, checkClose))
  {
    SecretsFileUntagged();
    assert tempn != SecretsFileName && tempo != SecretsFileName;
  }

  /** The saves that reach step 3. */
  lemma PromoteOutcomes(d0: FileMap, tempn: string, tempo: string, payload: Bytes, now: int,
                        f: SaveFaults, checkClose: bool)
    requires FreshTempNames(d0, tempn, tempo)
    requires !Step1Fails(f.write, checkClose) && !(SecretsFileName in d0 && f.moveExisting)
    ensures SaveOutcome(d0, tempn, tempo, payload, now, f, checkClose, Save(d0, tempn, tempo, payload, now, f, checkClose))
  {
    SecretsFileUntagged();
    assert tempn != SecretsFileName && tempo != SecretsFileName;
    var s1 := Written(d0, tempn, payload, now, f.write);
    var s2 := if SecretsFileName in s1 then Renamed(s1, SecretsFileName, tempo, false) else s1;
    var run := Promote(s2, tempn, tempo, f);
    assert Save(d0, tempn, tempo, payload, now, f, checkClose).code == run.code;
    assert Last(Save(d0, tempn, tempo, payload, now, f, checkClose).trace) == Last(run.trace);
    PromoteRun(d0, s2, tempn, tempo, f);
  }

  /**
   * Steps 3 and 4 from a directory `s2` in which the written file is `tempn`, the
   * primary is absent, and `tempo` holds the former primary if there was one.
   */
  lemma PromoteRun(d0: FileMap, s2: FileMap, tempn: string, tempo: string, f: SaveFaults)
    requires tempn != tempo && tempn != SecretsFileName && tempo != SecretsFileName
    requires tempn in s2 && SecretsFileName !in s2 && tempn !in d0 && tempo !in d0
    requires tempo in s2 <==> SecretsFileName in d0
    requires tempo in s2 ==> s2[tempo] == d0[SecretsFileName]
    requires forall n | n != SecretsFileName && n != tempn && n != tempo :: (n in s2 <==> n in d0) && (n in s2 ==> s2[n] == d0[n])
    ensures var run := Promote(s2, tempn, tempo, f);
      var r := Last(run.trace);
      var primary := SecretsFileName;
      && (forall n | n != primary && n != tempn && n != tempo :: (n in r <==> n in d0) && (n in r ==> r[n] == d0[n]))
      && (run.code == Saved <==> !f.moveNew)
      && (run.code == ErrorCannotMoveNew <==> f.moveNew)
      && (run.code == ErrorCannotMoveNew ==>
            && (tempn in r <==> f.deleteNew)
            && (primary in d0 && !f.moveBack ==> primary in r && r[primary] == d0[primary] && tempo !in r)
            && (primary in d0 && f.moveBack ==> primary !in r && tempo in r && r[tempo] == d0[primary])
            && (primary !in d0 ==> primary !in r && tempo !in r))
      && (run.code == Saved ==>
            && primary in r && r[primary] == s2[tempn]
            && tempn !in r
            && (tempo in r <==> primary in d0 && f.deleteOld)
            && (tempo in r ==> r[tempo] == d0[primary]))
  {
  }
}
