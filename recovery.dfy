/**
 * Startup recovery: `FileUtils.cleanupDataFiles`. One pass over the directory
 * listing deletes every "new" file, deletes every "old" file when the primary
 * exists, and otherwise keeps only the most recently modified "old" file, which is
 * finally renamed to the primary name.
 */
module Recovery {
  import opened Wrappers
  import opened Strings
  import opened Storage

  /** The loop state: the directory and the "old" file currently held as most recent. */
  datatype Scan = Scan(files: FileMap, mostRecent: Option<string>)

  /**
   * Which deletes fail (by position in the listing: each visit deletes at most one
   * file) and whether the final rename fails.
   */
  datatype CleanupFaults = CleanupFaults(failingDeletes: set<nat>, renameFails: bool)

  const NoFaults := CleanupFaults({}, false)

  /** `File.lastModified()`: zero for a file that does not exist. */
  function LastModified(d: FileMap, name: string): int {
    if name in d then d[name].modified else 0
  }

  /** One iteration of the loop, for the file `name`. */
  function Visit(s: Scan, name: string, secretsExist: bool, fault: bool): Scan {
    if Contains(name, "new") then Scan(Deleted(s.files, name, fault), s.mostRecent)
    else if !Contains(name, "old") then s
    else if secretsExist then Scan(Deleted(s.files, name, fault), s.mostRecent)
    else if s.mostRecent.None? then Scan(s.files, Some(name))
    else if LastModified(s.files, name) > LastModified(s.files, s.mostRecent.value) then
      Scan(Deleted(s.files, s.mostRecent.value, fault), Some(name))
    else Scan(Deleted(s.files, name, fault), s.mostRecent)
  }

  /** The loop over the whole of `listing`, from a directory `d0`. */
  function ScanListing(d0: FileMap, listing: seq<string>, secretsExist: bool, faults: CleanupFaults): Scan
  {
    if listing == [] then Scan(d0, None)
    else
      var i := |listing| - 1;
      Visit(ScanListing(d0, listing[..i], secretsExist, faults), listing[i], secretsExist, i in faults.failingDeletes)
  }

  /** The directory after `cleanupDataFiles`, given the listing the platform returned. */
  function Cleanup(d0: FileMap, listing: seq<string>, faults: CleanupFaults): FileMap {
    var s := ScanListing(d0, listing, SecretsFileName in d0, faults);
    if s.mostRecent.Some? then Renamed(s.files, s.mostRecent.value, SecretsFileName, faults.renameFails)
    else s.files
  }

  method CleanupDataFiles(dir: Directory, listing: seq<string>, faults: CleanupFaults)
    modifies dir
    ensures dir.files == Cleanup(old(dir.files), listing, faults)
  {
    ghost var d0 := dir.files;
    var secretsFileExists := SecretsFileName in dir.files;
    var mostRecent: Option<string> := None;
    var i := 0;
    while i < |listing|
      invariant 0 <= i <= |listing|
      invariant Scan(dir.files, mostRecent) == ScanListing(d0, listing[..i], secretsFileExists, faults)
    {
      assert listing[..i + 1][..i] == listing[..i];
      var filename := listing[i];
      var fault := i in faults.failingDeletes;
      if Contains(filename, "new") {
        var deleted := dir.Delete(filename, fault);
      } else if Contains(filename, "old") {
        if secretsFileExists {
          var deleted := dir.Delete(filename, fault);
        } else if mostRecent.None? {
          mostRecent := Some(filename);
        } else if LastModified(dir.files, filename) > LastModified(dir.files, mostRecent.value) {
          var deleted := dir.Delete(mostRecent.value, fault);
          mostRecent := Some(filename);
        } else {
          var deleted := dir.Delete(filename, fault);
        }
      }
      i := i + 1;
    }
    assert listing[..|listing|] == listing;
    if mostRecent.Some? {
      var renamed := dir.Rename(mostRecent.value, SecretsFileName, faults.renameFails);
    }
  }

  // ---------------------------------------------------------------------------
  // Specification of the result

  predicate Distinct(ls: seq<string>) {
    forall i, j | 0 <= i < j < |ls| :: ls[i] != ls[j]
  }

  predicate HasOld(ls: seq<string>) {
    exists x | x in ls :: IsOld(x)
  }

  /** The directory with every tagged file removed. */
  function Untagged(d: FileMap): (r: FileMap)
    ensures forall n :: n in r <==> n in d && !Tagged(n)
  {
    map n | n in d && !Tagged(n) :: d[n]
  }

  /**
   * `m` is the "old" file the loop keeps: it is modified no earlier than any other
   * "old" file of `ls`, and strictly later than every "old" file listed before it.
   */
  ghost predicate FirstNewest(d: FileMap, ls: seq<string>, m: string) {
    && m in ls && IsOld(m)
    && (forall x | x in ls && IsOld(x) :: LastModified(d, x) <= LastModified(d, m))
    && (forall j, k | 0 <= j < k < |ls| && ls[k] == m && IsOld(ls[j]) :: LastModified(d, ls[j]) < LastModified(d, m))
  }

  /** At most one file of a listing is the first newest "old" file. */
  lemma FirstNewestUnique(d: FileMap, ls: seq<string>, m1: string, m2: string)
    requires Distinct(ls) && FirstNewest(d, ls, m1) && FirstNewest(d, ls, m2)
    ensures m1 == m2
  {
  }

  /** What the loop without faults has done after visiting the distinct names `ls`. */
  ghost predicate ScanInvariant(d0: FileMap, ls: seq<string>, secretsExist: bool, s: Scan) {
    && (forall n :: n in s.files <==> n in d0 && !(n in ls && Tagged(n) && s.mostRecent != Some(n)))
    && (forall n | n in s.files :: s.files[n] == d0[n])
    && (secretsExist ==> s.mostRecent.None?)
    && (!secretsExist ==> (s.mostRecent.None? <==> !HasOld(ls)))
    && (!secretsExist && s.mostRecent.Some? ==> FirstNewest(d0, ls, s.mostRecent.value))
  }

  /** The choice of the most recent "old" file when `x` is visited after `p`. */
  lemma VisitKeepsFirstNewest(d0: FileMap, p: seq<string>, x: string, s: Scan)
    requires Distinct(p) && x !in p && IsOld(x)
    requires ScanInvariant(d0, p, false, s)
    ensures ScanInvariant(d0, p + [x], false, Visit(s, x, false, false))
  {
    assert x in p + [x];
    VisitOldKeepsFiles(d0, p, x, s);
    VisitOldChoice(d0, p, x, s);
  }

  /** Visiting an "old" file deletes exactly the one of the two candidates that loses. */
  lemma VisitOldKeepsFiles(d0: FileMap, p: seq<string>, x: string, s: Scan)
    requires Distinct(p) && x !in p && IsOld(x)
    requires ScanInvariant(d0, p, false, s)
    ensures var t := Visit(s, x, false, false);
      && (forall n :: n in t.files <==> n in d0 && !(n in p + [x] && Tagged(n) && t.mostRecent != Some(n)))
      && (forall n | n in t.files :: t.files[n] == d0[n])
  {
    assert forall y :: y in p + [x] <==> y in p || y == x;
  }

  /** Visiting an "old" file keeps the first newest one as the candidate. */
  lemma VisitOldChoice(d0: FileMap, p: seq<string>, x: string, s: Scan)
    requires Distinct(p) && x !in p && IsOld(x)
    requires ScanInvariant(d0, p, false, s)
    ensures var t := Visit(s, x, false, false);
      t.mostRecent.Some? && FirstNewest(d0, p + [x], t.mostRecent.value)
  {
    var ls := p + [x];
    assert forall y :: y in ls <==> y in p || y == x;
    assert LastModified(s.files, x) == LastModified(d0, x);
    if s.mostRecent.Some? {
      var m := s.mostRecent.value;
      assert LastModified(s.files, m) == LastModified(d0, m);
      if LastModified(d0, x) > LastModified(d0, m) {
        forall j, k | 0 <= j < k < |ls| && ls[k] == x && IsOld(ls[j])
          ensures LastModified(d0, ls[j]) < LastModified(d0, x)
        {
          assert ls[j] in p;
        }
      } else {
        forall j, k | 0 <= j < k < |ls| && ls[k] == m && IsOld(ls[j])
          ensures LastModified(d0, ls[j]) < LastModified(d0, m)
        {
          assert ls[k] == p[k] && ls[j] == p[j];
        }
      }
    } else {
      forall j, k | 0 <= j < k < |ls| && ls[k] == x
        ensures !IsOld(ls[j])
      {
        assert ls[j] in p;
      }
    }
  }

  /** One iteration without faults keeps the invariant. */
  lemma VisitKeepsInvariant(d0: FileMap, p: seq<string>, x: string, secretsExist: bool, s: Scan)
    requires Distinct(p) && x !in p
    requires ScanInvariant(d0, p, secretsExist, s)
    ensures ScanInvariant(d0, p + [x], secretsExist, Visit(s, x, secretsExist, false))
  {
    if !secretsExist && IsOld(x) {
      VisitKeepsFirstNewest(d0, p, x, s);
    } else {
      assert forall y :: y in p + [x] <==> y in p || y == x;
    }
  }

  /** The loop without faults, after visiting the distinct names `ls`. */
  lemma {:induction false} ScanWithoutFaults(d0: FileMap, ls: seq<string>, secretsExist: bool)
    requires Distinct(ls)
    ensures ScanInvariant(d0, ls, secretsExist, ScanListing(d0, ls, secretsExist, NoFaults))
  {
    if ls != [] {
      var i := |ls| - 1;
      var p, x := ls[..i], ls[i];
      assert ls == p + [x];
      assert Distinct(p);
      ScanWithoutFaults(d0, p, secretsExist);
      VisitKeepsInvariant(d0, p, x, secretsExist, ScanListing(d0, p, secretsExist, NoFaults));
    }
  }

  /**
   * Recovery without faults. Files carrying neither tag are untouched; nothing
   * tagged survives. When the primary exists every tagged file is deleted; when it
   * does not, the first newest "old" file (if any) becomes the primary.
   */
  lemma CleanupWithoutFaults(d0: FileMap, listing: seq<string>) returns (promoted: Option<string>)
    requires ListsExactly(listing, d0)
    ensures var r := Cleanup(d0, listing, NoFaults);
      && (promoted.Some? <==> SecretsFileName !in d0 && HasOld(listing))
      && (promoted.Some? ==> promoted.value in d0 && FirstNewest(d0, listing, promoted.value))
      && (promoted.None? ==> r == Untagged(d0))
      && (promoted.Some? ==> r == Untagged(d0)[SecretsFileName := d0[promoted.value]])
  {
    var e := SecretsFileName in d0;
    ScanWithoutFaults(d0, listing, e);
    var s := ScanListing(d0, listing, e, NoFaults);
    promoted := s.mostRecent;
    SecretsFileUntagged();
    if promoted.Some? {
      var m := promoted.value;
      assert Tagged(m);
      assert s.files == Untagged(d0)[m := d0[m]];
      PromoteSurvivor(d0, m);
    } else {
      assert s.files == Untagged(d0);
    }
  }

  /** Renaming the one surviving tagged file `m` onto the primary. */
  lemma PromoteSurvivor(d0: FileMap, m: string)
    requires m in d0 && Tagged(m) && !Tagged(SecretsFileName)
    ensures var s := Untagged(d0)[m := d0[m]];
      (s - {m})[SecretsFileName := s[m]] == Untagged(d0)[SecretsFileName := d0[m]]
  {
    var s := Untagged(d0)[m := d0[m]];
    assert s - {m} == Untagged(d0);
  }

  /** With no tagged file in the listing, the loop changes nothing. */
  lemma {:induction false} ScanOfUntagged(d: FileMap, ls: seq<string>, secretsExist: bool, faults: CleanupFaults)
    requires forall n | n in ls :: !Tagged(n)
    ensures ScanListing(d, ls, secretsExist, faults) == Scan(d, None)
  {
    if ls != [] {
      var i := |ls| - 1;
      assert forall n | n in ls[..i] :: n in ls;
      assert ls[i] in ls;
      ScanOfUntagged(d, ls[..i], secretsExist, faults);
    }
  }

  /** Running recovery a second time, with no write in between, changes nothing. */
  lemma CleanupIdempotent(d0: FileMap, first: seq<string>, second: seq<string>)
    requires ListsExactly(first, d0)
    requires ListsExactly(second, Cleanup(d0, first, NoFaults))
    ensures Cleanup(Cleanup(d0, first, NoFaults), second, NoFaults) == Cleanup(d0, first, NoFaults)
  {
    var r := Cleanup(d0, first, NoFaults);
    var promoted := CleanupWithoutFaults(d0, first);
    SecretsFileUntagged();
    assert forall n | n in r :: !Tagged(n);
    ScanOfUntagged(r, second, SecretsFileName in r, NoFaults);
  }

  /** The loop, whatever fails, only removes tagged files and only ever holds a tagged one. */
  lemma {:induction false} ScanTouchesOnlyTagged(d0: FileMap, ls: seq<string>, secretsExist: bool, faults: CleanupFaults)
    ensures var s := ScanListing(d0, ls, secretsExist, faults);
      && (forall n | !Tagged(n) :: (n in s.files <==> n in d0) && (n in d0 ==> s.files[n] == d0[n]))
      && (s.mostRecent.Some? ==> Tagged(s.mostRecent.value) && !secretsExist)
  {
    if ls != [] {
      ScanTouchesOnlyTagged(d0, ls[..|ls| - 1], secretsExist, faults);
    }
  }

  /**
   * Recovery, whatever fails, leaves every untagged file other than the primary as
   * it was, and an existing primary as it was.
   */
  lemma CleanupKeepsUntagged(d0: FileMap, listing: seq<string>, faults: CleanupFaults)
    ensures var r := Cleanup(d0, listing, faults);
      && (forall n | !Tagged(n) && n != SecretsFileName :: (n in r <==> n in d0) && (n in d0 ==> r[n] == d0[n]))
      && (SecretsFileName in d0 ==> SecretsFileName in r && r[SecretsFileName] == d0[SecretsFileName])
  {
    SecretsFileUntagged();
    ScanTouchesOnlyTagged(d0, listing, SecretsFileName in d0, faults);
  }
}
