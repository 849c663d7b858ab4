/**
 * Durability of the save protocol: whatever prefix of a save's primitive
 * operations has happened when the process dies, the next startup recovery leaves
 * the primary holding either the previous contents or the new payload, and never
 * loses an existing store.
 */
module CrashSafety {
  import opened Wrappers
  import opened Strings
  import opened Storage
  import opened Recovery
  import opened AtomicSave

  /**
   * A directory the application can be in between saves: any "old" file left over
   * from an earlier save is a strictly older version of an existing primary.
   */
  ghost predicate Settled(d0: FileMap) {
    forall n | n in d0 && IsOld(n) :: SecretsFileName in d0 && d0[n].modified < d0[SecretsFileName].modified
  }

  /**
   * After recovery, an existing store still exists, and the primary holds either the
   * new payload or exactly the file that was the primary before the save.
   */
  predicate Recovered(d0: FileMap, payload: Bytes, r: FileMap) {
    && (SecretsFileName in d0 ==> SecretsFileName in r)
    && (SecretsFileName in r ==> r[SecretsFileName].data == payload || (SecretsFileName in d0 && r[SecretsFileName] == d0[SecretsFileName]))
  }

  /**
   * A crash state recovery repairs: the primary holds the old file or the new
   * payload; or it is absent and the "old" file `tempo` holds the old primary and is
   * strictly newer than every other "old" file; or there never was a primary and
   * there is no "old" file.
   */
  ghost predicate Safe(d0: FileMap, payload: Bytes, tempo: string, s: FileMap) {
    if SecretsFileName in s then
      s[SecretsFileName].data == payload || (SecretsFileName in d0 && s[SecretsFileName] == d0[SecretsFileName])
    else if SecretsFileName in d0 then
      && tempo in s && IsOld(tempo) && s[tempo] == d0[SecretsFileName]
      && (forall n | n in s && IsOld(n) && n != tempo :: s[n].modified < s[tempo].modified)
    else
      forall n | n in s :: !IsOld(n)
  }

  /** Recovery without faults turns a safe crash state into a recovered directory. */
  lemma SafeStateRecovers(d0: FileMap, payload: Bytes, tempo: string, s: FileMap, listing: seq<string>)
    requires Safe(d0, payload, tempo, s) && ListsExactly(listing, s)
    ensures Recovered(d0, payload, Cleanup(s, listing, NoFaults))
  {
    var promoted := CleanupWithoutFaults(s, listing);
    SecretsFileUntagged();
    if SecretsFileName !in s && SecretsFileName in d0 {
      assert tempo in listing;
      assert LastModified(s, tempo) <= LastModified(s, promoted.value);
    } else if SecretsFileName !in s {
      assert !HasOld(listing);
    }
  }

  /** Every state of a save, from a settled directory, is safe. */
  lemma SaveStatesSafe(d0: FileMap, tempn: string, tempo: string, payload: Bytes, now: int,
                       f: SaveFaults, checkClose: bool)
    requires FreshTempNames(d0, tempn, tempo) && Settled(d0)
    requires checkClose || !f.write.LostOnClose?
    ensures forall s | s in [d0] + Save(d0, tempn, tempo, payload, now, f, checkClose).trace :: Safe(d0, payload, tempo, s)
  {
    SecretsFileUntagged();
    var s1 := Written(d0, tempn, payload, now, f.write);
    assert Safe(d0, payload, tempo, d0);
    assert Safe(d0, payload, tempo, s1);
    assert Safe(d0, payload, tempo, Deleted(s1, tempn, f.deleteNew));
    if !Step1Fails(f.write, checkClose) && !(SecretsFileName in s1 && f.moveExisting) {
      assert Kept(payload, f.write) == payload;
      var s2 := if SecretsFileName in s1 then Renamed(s1, SecretsFileName, tempo, false) else s1;
      assert Safe(d0, payload, tempo, s2);
      PromoteStatesSafe(d0, s2, tempn, tempo, payload, f);
      assert Save(d0, tempn, tempo, payload, now, f, checkClose).trace
        == [s1] + (if SecretsFileName in s1 then [s2] else []) + Promote(s2, tempn, tempo, f).trace;
    }
  }

  /**
   * Steps 3 and 4 keep every state safe, from a directory `s2` holding the new
   * payload in `tempn`, no primary, and the former primary (if any) in `tempo`.
   */
  lemma PromoteStatesSafe(d0: FileMap, s2: FileMap, tempn: string, tempo: string, payload: Bytes, f: SaveFaults)
    requires Settled(d0) && FreshTempNames(d0, tempn, tempo)
    requires tempn in s2 && s2[tempn].data == payload && SecretsFileName !in s2
    requires tempo in s2 <==> SecretsFileName in d0
    requires tempo in s2 ==> s2[tempo] == d0[SecretsFileName]
    requires forall n | n in s2 && IsOld(n) && n != tempo :: n in d0 && s2[n] == d0[n]
    ensures forall s | s in Promote(s2, tempn, tempo, f).trace :: Safe(d0, payload, tempo, s)
  {
    SecretsFileUntagged();
    var s3 := Renamed(s2, tempn, SecretsFileName, f.moveNew);
    assert Safe(d0, payload, tempo, s3);
    if f.moveNew {
      var s4 := Renamed(s3, tempo, SecretsFileName, f.moveBack);
      assert Safe(d0, payload, tempo, s4);
      assert Safe(d0, payload, tempo, Deleted(s4, tempn, f.deleteNew));
    } else {
      assert Safe(d0, payload, tempo, Deleted(s3, tempo, f.deleteOld));
    }
  }

  /**
   * The durability theorem: a crash at any point of a save (before it, after any
   * primitive operation, or after it returned), followed by recovery, never loses
   * both the old and the new contents. It holds for the save as written whenever
   * `close()` does not fail, and for the corrected save (`checkClose`) always.
   */
  lemma CrashThenRecover(d0: FileMap, tempn: string, tempo: string, payload: Bytes, now: int,
                         f: SaveFaults, checkClose: bool, s: FileMap, listing: seq<string>)
    requires FreshTempNames(d0, tempn, tempo) && Settled(d0)
    requires checkClose || !f.write.LostOnClose?
    requires s in [d0] + Save(d0, tempn, tempo, payload, now, f, checkClose).trace
    requires ListsExactly(listing, s)
    ensures Recovered(d0, payload, Cleanup(s, listing, NoFaults))
  {
    SaveStatesSafe(d0, tempn, tempo, payload, now, f, checkClose);
    SafeStateRecovers(d0, payload, tempo, s, listing);
  }

  /**
   * The save as written loses both versions when `close()` fails: the truncated
   * file is promoted, the old one deleted, and the call still reports success.
   */
  lemma CloseFailureLosesBoth()
    ensures var d0 := map[SecretsFileName := FileEntry([7], 1)];
      var f := SaveFaults(LostOnClose(1), false, false, false, false, false);
      var run := Save(d0, "t.new", "t.old", [1, 2], 2, f, false);
      && Settled(d0) && FreshTempNames(d0, "t.new", "t.old")
      && run.code == Saved
      && Last(run.trace) == map[SecretsFileName := FileEntry([1], 2)]
      && !Recovered(d0, [1, 2], Cleanup(Last(run.trace), [SecretsFileName], NoFaults))
  {
    var r := CloseFailureRun();
    SecretsFileUntagged();
    assert ListsExactly([SecretsFileName], r);
    var promoted := CleanupWithoutFaults(r, [SecretsFileName]);
    assert Untagged(r) == r;
  }

  /** The run of `CloseFailureLosesBoth`, up to the directory it leaves behind. */
  lemma CloseFailureRun() returns (r: FileMap)
    ensures var d0 := map[SecretsFileName := FileEntry([7], 1)];
      var f := SaveFaults(LostOnClose(1), false, false, false, false, false);
      var run := Save(d0, "t.new", "t.old", [1, 2], 2, f, false);
      && Settled(d0) && FreshTempNames(d0, "t.new", "t.old")
      && run.code == Saved
      && r == Last(run.trace) == map[SecretsFileName := FileEntry([1], 2)]
  {
    var d0 := map[SecretsFileName := FileEntry([7], 1)];
    var f := SaveFaults(LostOnClose(1), false, false, false, false, false);
    SecretsFileUntagged();
    assert OccursAt("t.new", "new", 2);
    assert OccursAt("t.old", "old", 2);
    MissingCharNotContained("t.old", "new", 'w');
    assert FreshTempNames(d0, "t.new", "t.old");
    SaveOutcomes(d0, "t.new", "t.old", [1, 2], 2, f, false);
    r := Last(Save(d0, "t.new", "t.old", [1, 2], 2, f, false).trace);
    assert Kept([1, 2], f.write) == [1];
    assert r == map[SecretsFileName := FileEntry([1], 2)];
  }

  /** Recovery without faults leaves a settled directory: no "old" file survives it. */
  lemma CleanupSettles(d0: FileMap, listing: seq<string>)
    requires ListsExactly(listing, d0)
    ensures Settled(Cleanup(d0, listing, NoFaults))
    ensures forall n | n in Cleanup(d0, listing, NoFaults) :: !IsOld(n)
  {
    var promoted := CleanupWithoutFaults(d0, listing);
    SecretsFileUntagged();
  }

  /**
   * How the source leaves a directory unsettled without a crash: a save whose
   * step 4 delete fails, in the same clock tick as the previous save, keeps an "old"
   * file exactly as recent as the new primary.
   */
  lemma StaleOldFileRun() returns (d0: FileMap)
    ensures var prev := map[SecretsFileName := FileEntry([0], 5)];
      var f := NoSaveFaults.(deleteOld := true);
      var run := Save(prev, "t.1.new", "t.1.old", [1], 5, f, false);
      && Settled(prev) && FreshTempNames(prev, "t.1.new", "t.1.old")
      && run.code == Saved
      && d0 == Last(run.trace) == map[SecretsFileName := FileEntry([1], 5), "t.1.old" := FileEntry([0], 5)]
      && !Settled(d0)
  {
    var prev := map[SecretsFileName := FileEntry([0], 5)];
    var f := NoSaveFaults.(deleteOld := true);
    SecretsFileUntagged();
    assert OccursAt("t.1.new", "new", 4);
    assert OccursAt("t.1.old", "old", 4);
    MissingCharNotContained("t.1.old", "new", 'n');
    assert FreshTempNames(prev, "t.1.new", "t.1.old");
    SaveOutcomes(prev, "t.1.new", "t.1.old", [1], 5, f, false);
    d0 := Last(Save(prev, "t.1.new", "t.1.old", [1], 5, f, false).trace);
    assert d0 == map[SecretsFileName := FileEntry([1], 5), "t.1.old" := FileEntry([0], 5)];
  }

  /**
   * From that unsettled directory a crash right after step 2 of the next save, in
   * the same tick, loses both versions: recovery keeps the stale "old" file, listed
   * first, and promotes it.
   */
  lemma StaleOldFileLosesBoth()
    ensures var d0 := map[SecretsFileName := FileEntry([1], 5), "t.1.old" := FileEntry([0], 5)];
      var run := Save(d0, "t.2.new", "t.2.old", [2], 5, NoSaveFaults, false);
      var listing := ["t.1.old", "t.2.new", "t.2.old"];
      && FreshTempNames(d0, "t.2.new", "t.2.old")
      && |run.trace| > 1 && ListsExactly(listing, run.trace[1])
      && Cleanup(run.trace[1], listing, NoFaults) == map[SecretsFileName := FileEntry([0], 5)]
      && !Recovered(d0, [2], Cleanup(run.trace[1], listing, NoFaults))
  {
    StaleSaveStep2();
    StaleCleanup();
  }

  /** The directory right after step 2 of the save of `StaleOldFileLosesBoth`. */
  lemma StaleSaveStep2()
    ensures var d0 := map[SecretsFileName := FileEntry([1], 5), "t.1.old" := FileEntry([0], 5)];
      var run := Save(d0, "t.2.new", "t.2.old", [2], 5, NoSaveFaults, false);
      && FreshTempNames(d0, "t.2.new", "t.2.old")
      && |run.trace| > 1
      && run.trace[1] == map["t.1.old" := FileEntry([0], 5), "t.2.new" := FileEntry([2], 5), "t.2.old" := FileEntry([1], 5)]
  {
    var d0 := map[SecretsFileName := FileEntry([1], 5), "t.1.old" := FileEntry([0], 5)];
    SecretsFileUntagged();
    StaleNames();
    assert FreshTempNames(d0, "t.2.new", "t.2.old");
  }

  /** Recovery of that directory keeps the stale "old" file, listed first, and promotes it. */
  lemma StaleCleanup()
    ensures var s := map["t.1.old" := FileEntry([0], 5), "t.2.new" := FileEntry([2], 5), "t.2.old" := FileEntry([1], 5)];
      var listing := ["t.1.old", "t.2.new", "t.2.old"];
      && ListsExactly(listing, s)
      && Cleanup(s, listing, NoFaults) == map[SecretsFileName := FileEntry([0], 5)]
  {
    SecretsFileUntagged();
    StaleScan();
  }

  /** The names of the stale scenario carry the tags they appear to carry. */
  lemma StaleNames()
    ensures Contains("t.2.new", "new")
    ensures !Contains("t.1.old", "new") && Contains("t.1.old", "old")
    ensures !Contains("t.2.old", "new") && Contains("t.2.old", "old")
  {
    assert OccursAt("t.2.new", "new", 4);
    assert OccursAt("t.2.old", "old", 4);
    assert OccursAt("t.1.old", "old", 4);
    MissingCharNotContained("t.2.old", "new", 'n');
    MissingCharNotContained("t.1.old", "new", 'n');
  }

  /** The loop of recovery over the stale scenario's listing. */
  lemma StaleScan()
    ensures var s := map["t.1.old" := FileEntry([0], 5), "t.2.new" := FileEntry([2], 5), "t.2.old" := FileEntry([1], 5)];
      ScanListing(s, ["t.1.old", "t.2.new", "t.2.old"], false, NoFaults) == Scan(map["t.1.old" := FileEntry([0], 5)], Some("t.1.old"))
  {
    StaleNames();
    var s := map["t.1.old" := FileEntry([0], 5), "t.2.new" := FileEntry([2], 5), "t.2.old" := FileEntry([1], 5)];
    var listing := ["t.1.old", "t.2.new", "t.2.old"];
    assert listing[..2][..1] == ["t.1.old"] && listing[..2] == ["t.1.old", "t.2.new"];
    assert ["t.1.old"][..0] == [];
    assert ScanListing(s, listing[..1], false, NoFaults) == Scan(s, Some("t.1.old"));
    var s2 := map["t.1.old" := FileEntry([0], 5), "t.2.old" := FileEntry([1], 5)];
    assert s - {"t.2.new"} == s2;
    assert ScanListing(s, listing[..2], false, NoFaults) == Scan(s2, Some("t.1.old"));
    assert s2 - {"t.2.old"} == map["t.1.old" := FileEntry([0], 5)];
  }

  /** `s` holds a subset of the files of `d`, each unchanged. */
  ghost predicate Within(s: FileMap, d: FileMap) {
    forall n | n in s :: n in d && s[n] == d[n]
  }

  /** Purging only removes "old" files: the primary and every other file stay as they were. */
  lemma {:induction false} PurgeKeeps(d: FileMap, names: seq<string>, failing: set<nat>)
    ensures forall k | 0 <= k < |names| :: Within(Purge(d, names, failing)[k], d)
    ensures forall k | 0 <= k < |names| :: SecretsFileName in d ==>
      SecretsFileName in Purge(d, names, failing)[k] && Purge(d, names, failing)[k][SecretsFileName] == d[SecretsFileName]
    decreases |names|
  {
    SecretsFileUntagged();
    if names != [] {
      var i := |names| - 1;
      PurgeKeeps(d, names[..i], failing);
    }
  }

  /**
   * No "old" file is stranded without a primary: recovery of such a directory can
   * only promote an "old" file when the primary is missing.
   */
  ghost predicate PrimaryOrNoOld(d: FileMap) {
    SecretsFileName in d || forall n | n in d :: !IsOld(n)
  }

  /**
   * The corrected save keeps `PrimaryOrNoOld`, except when step 3 fails: there the
   * primary may already have been moved aside and the move back may fail too.
   */
  lemma PurgedSaveKeepsPrimaryOrNoOld(d0: FileMap, listing: seq<string>, failing: set<nat>, tempn: string,
                                      tempo: string, payload: Bytes, now: int, f: SaveFaults)
    requires FreshTempNames(d0, tempn, tempo) && PrimaryOrNoOld(d0)
    ensures var run := PurgedSave(d0, listing, failing, tempn, tempo, payload, now, f);
      run.code != ErrorCannotMoveNew ==> PrimaryOrNoOld(Last(run.trace))
  {
    var run := PurgedSave(d0, listing, failing, tempn, tempo, payload, now, f);
    if SecretsFileName !in d0 {
      SaveKeepsPrimaryOrNoOld(d0, tempn, tempo, payload, now, f);
    } else {
      var p := Purge(d0, listing, failing);
      PurgeKeeps(d0, listing, failing);
      var d1 := if p == [] then d0 else Last(p);
      if exists n | n in d1 :: IsOld(n) {
        assert Last(run.trace) == d1;
      } else {
        assert Last(run.trace) == Last(Save(d1, tempn, tempo, payload, now, f, true).trace);
        assert FreshTempNames(d1, tempn, tempo);
        SaveKeepsPrimaryOrNoOld(d1, tempn, tempo, payload, now, f);
      }
    }
  }

  /** A save with `close()` failures reported keeps `PrimaryOrNoOld` unless step 3 fails. */
  lemma SaveKeepsPrimaryOrNoOld(d0: FileMap, tempn: string, tempo: string, payload: Bytes, now: int, f: SaveFaults)
    requires FreshTempNames(d0, tempn, tempo) && PrimaryOrNoOld(d0)
    ensures var run := Save(d0, tempn, tempo, payload, now, f, true);
      run.code != ErrorCannotMoveNew ==> PrimaryOrNoOld(Last(run.trace))
  {
    SaveOutcomes(d0, tempn, tempo, payload, now, f, true);
  }

  /**
   * The corrected durability theorem: with stale "old" files purged before a save
   * and `close()` failures reported, a crash at any point followed by recovery never
   * loses both versions, from any directory that has a primary or no "old" file,
   * whatever the modification times.
   */
  lemma CrashThenRecoverPurged(d0: FileMap, listing: seq<string>, failing: set<nat>, tempn: string, tempo: string,
                               payload: Bytes, now: int, f: SaveFaults, s: FileMap, after: seq<string>)
    requires FreshTempNames(d0, tempn, tempo) && PrimaryOrNoOld(d0)
    requires s in [d0] + PurgedSave(d0, listing, failing, tempn, tempo, payload, now, f).trace
    requires ListsExactly(after, s)
    ensures Recovered(d0, payload, Cleanup(s, after, NoFaults))
  {
    SecretsFileUntagged();
    if SecretsFileName !in d0 {
      CrashThenRecover(d0, tempn, tempo, payload, now, f, true, s, after);
      return;
    }
    var p := Purge(d0, listing, failing);
    PurgeKeeps(d0, listing, failing);
    var d1 := if p == [] then d0 else Last(p);
    var run := PurgedSave(d0, listing, failing, tempn, tempo, payload, now, f);
    if s == d0 || s in p || s == d1 {
      assert Safe(d0, payload, tempo, s);
    } else {
      assert !exists n | n in d1 :: IsOld(n);
      assert run.trace == p + Save(d1, tempn, tempo, payload, now, f, true).trace;
      SaveStatesSafe(d1, tempn, tempo, payload, now, f, true);
      assert Safe(d1, payload, tempo, s);
    }
    SafeStateRecovers(d0, payload, tempo, s, after);
  }
}
