/**
 * Reading, deleting and backing up the encrypted secrets file. The cipher streams
 * and Java object serialisation are abstracted as a codec: an encoder from a list
 * of secrets to bytes and a decoder that may fail.
 */
module SecretsFile {
  import opened Wrappers
  import opened Records
  import opened Storage
  import opened AtomicSave
  import opened Recovery
  import opened CrashSafety

  /** The backup file on the SD card. */
  const SdcardFileName := "/sdcard/secrets"

  /** Encryption plus serialisation (`encode`), and decryption plus deserialisation (`decode`). */
  datatype Codec = Codec(encode: seq<Secret> -> Bytes, decode: Bytes -> Option<seq<Secret>>)

  /** What a working cipher pair guarantees: decoding what was encoded gives it back. */
  ghost predicate RoundTrips(c: Codec) {
    forall xs :: c.decode(c.encode(xs)) == Some(xs)
  }

  /** Open file `name`, decrypt and deserialise it; `None` stands for `null`. */
  function ReadSecrets(d: FileMap, name: string, cipher: Option<Codec>): Option<seq<Secret>> {
    if cipher.None? || name !in d then None else cipher.value.decode(d[name].data)
  }

  /** `loadSecrets`: the list in the primary file, or `null` without a cipher, a file or a valid encoding. */
  function LoadSecrets(d: FileMap, cipher: Option<Codec>): (r: Option<seq<Secret>>)
    ensures r.Some? ==> cipher.Some? && SecretsFileName in d
    ensures r.Some? ==> r == cipher.value.decode(d[SecretsFileName].data)
    ensures cipher.None? || SecretsFileName !in d ==> r.None?
    ensures cipher.Some? && SecretsFileName in d ==> r == cipher.value.decode(d[SecretsFileName].data)
  {
    ReadSecrets(d, SecretsFileName, cipher)
  }

  /** `restoreSecrets`: the same as loading, from the backup file on the SD card. */
  function RestoreSecrets(sd: FileMap, cipher: Option<Codec>): (r: Option<seq<Secret>>)
    ensures r.Some? ==> cipher.Some? && SdcardFileName in sd
    ensures r.Some? ==> r == cipher.value.decode(sd[SdcardFileName].data)
    ensures cipher.None? || SdcardFileName !in sd ==> r.None?
    ensures cipher.Some? && SdcardFileName in sd ==> r == cipher.value.decode(sd[SdcardFileName].data)
  {
    ReadSecrets(sd, SdcardFileName, cipher)
  }

  /**
   * `secretsExist`: whether the primary file exists. Without it nothing can be
   * loaded; with it, loading with any cipher decodes its contents.
   */
  function SecretsExist(d: FileMap): (r: bool)
    ensures !r ==> forall c :: LoadSecrets(d, c).None?
    ensures r ==> SecretsFileName in d && forall c: Option<Codec> | c.Some? :: LoadSecrets(d, c) == c.value.decode(d[SecretsFileName].data)
  {
    SecretsFileName in d
  }

  /** A save that reports success leaves a primary file behind, with or without `close()` checked. */
  lemma SaveThenExists(d0: FileMap, tempn: string, tempo: string, payload: Bytes, now: int,
                       f: SaveFaults, checkClose: bool)
    requires FreshTempNames(d0, tempn, tempo)
    ensures var run := Save(d0, tempn, tempo, payload, now, f, checkClose);
      run.code == Saved ==> SecretsExist(Last(run.trace))
  {
    SaveOutcomes(d0, tempn, tempo, payload, now, f, checkClose);
  }

  /** `deleteSecrets`: delete the primary file; false when it is missing or cannot be deleted. */
  method DeleteSecrets(dir: Directory, fault: bool) returns (ok: bool)
    modifies dir
    ensures ok <==> old(SecretsExist(dir.files)) && !fault
    ensures ok ==> !SecretsExist(dir.files)
    ensures dir.files == Deleted(old(dir.files), SecretsFileName, fault)
    ensures dir.history == old(dir.history) + [dir.files]
  {
    ok := dir.Delete(SecretsFileName, fault);
  }

  /** After a successful delete nothing can be loaded, and every other file is as it was. */
  lemma DeleteThenLoad(d: FileMap, fault: bool, cipher: Option<Codec>)
    requires DeleteSucceeds(d, SecretsFileName, fault)
    ensures var r := Deleted(d, SecretsFileName, fault);
      && !SecretsExist(r) && LoadSecrets(r, cipher).None?
      && forall n | n != SecretsFileName :: (n in r <==> n in d) && (n in r ==> r[n] == d[n])
  {
  }

  /**
   * As written, deleting leaves "old" files in place. After a save whose step 4
   * delete failed (the directory `StaleOldFileRun` ends in), a successful delete
   * leaves the stale "old" file alone, and recovery at the next start promotes it:
   * the secrets exist again, holding an earlier list.
   */
  lemma DeletedSecretsReturn()
    ensures var d := map[SecretsFileName := FileEntry([1], 5), "t.1.old" := FileEntry([0], 5)];
      var r := Deleted(d, SecretsFileName, false);
      && DeleteSucceeds(d, SecretsFileName, false)
      && ListsExactly(["t.1.old"], r)
      && Cleanup(r, ["t.1.old"], NoFaults) == map[SecretsFileName := FileEntry([0], 5)]
      && SecretsExist(Cleanup(r, ["t.1.old"], NoFaults))
  {
    SecretsFileUntagged();
    StaleNames();
    var r := map["t.1.old" := FileEntry([0], 5)];
    assert Deleted(map[SecretsFileName := FileEntry([1], 5), "t.1.old" := FileEntry([0], 5)], SecretsFileName, false) == r;
    assert ListsExactly(["t.1.old"], r);
    assert HasOld(["t.1.old"]) by { assert "t.1.old" in ["t.1.old"]; }
    var promoted := CleanupWithoutFaults(r, ["t.1.old"]);
    assert promoted.value == "t.1.old";
    assert Untagged(r) == map[];
  }

  /** The directory after the corrected delete, and the value it returns. */
  datatype DeleteRun = DeleteRun(files: FileMap, ok: bool)

  /**
   * The corrected `deleteSecrets`: first delete every "old" file of the listing,
   * then delete the primary only if no "old" file survived; otherwise give up and
   * return false, keeping the primary.
   */
  function PurgedDelete(d: FileMap, listing: seq<string>, failing: set<nat>, fault: bool): (r: DeleteRun)
    ensures Within(r.files, d)
    ensures r.ok ==> SecretsExist(d) && !SecretsExist(r.files) && forall n | n in r.files :: !IsOld(n)
    ensures !r.ok && SecretsExist(d) ==> SecretsExist(r.files) && r.files[SecretsFileName] == d[SecretsFileName]
    ensures PrimaryOrNoOld(d) ==> PrimaryOrNoOld(r.files)
  {
    var p := Purge(d, listing, failing);
    PurgeKeeps(d, listing, failing);
    var d1 := if p == [] then d else Last(p);
    if exists n | n in d1 :: IsOld(n) then DeleteRun(d1, false)
    else DeleteRun(Deleted(d1, SecretsFileName, fault), DeleteSucceeds(d1, SecretsFileName, fault))
  }

  /**
   * After a successful corrected delete, recovery at the next start finds nothing
   * to promote: no secrets exist and nothing loads.
   */
  lemma PurgedDeleteThenRecover(d: FileMap, listing: seq<string>, failing: set<nat>, fault: bool,
                                after: seq<string>, cipher: Option<Codec>)
    requires PurgedDelete(d, listing, failing, fault).ok
    requires ListsExactly(after, PurgedDelete(d, listing, failing, fault).files)
    ensures var r := Cleanup(PurgedDelete(d, listing, failing, fault).files, after, NoFaults);
      !SecretsExist(r) && LoadSecrets(r, cipher).None?
  {
    var files := PurgedDelete(d, listing, failing, fault).files;
    var promoted := CleanupWithoutFaults(files, after);
    assert !HasOld(after);
  }

  /**
   * A save of an encoded list, when `close()` cannot lose data or its failure is
   * reported: a successful save can be loaded back, and a save that failed before
   * moving the primary leaves what loads unchanged.
   */
  lemma SaveThenLoad(d0: FileMap, tempn: string, tempo: string, c: Codec, secrets: seq<Secret>, now: int,
                     f: SaveFaults, checkClose: bool)
    requires FreshTempNames(d0, tempn, tempo) && RoundTrips(c)
    requires checkClose || !f.write.LostOnClose?
    ensures var run := Save(d0, tempn, tempo, c.encode(secrets), now, f, checkClose);
      && (run.code == Saved ==> LoadSecrets(Last(run.trace), Some(c)) == Some(secrets))
      && (run.code == ErrorSaveSecrets || run.code == ErrorCannotMoveExisting ==>
            LoadSecrets(Last(run.trace), Some(c)) == LoadSecrets(d0, Some(c)))
  {
    SaveOutcomes(d0, tempn, tempo, c.encode(secrets), now, f, checkClose);
    if !checkClose && !Step1Fails(f.write, checkClose) {
      assert f.write.Completes?;
    }
  }

  /**
   * The durability theorem in the application's terms: after a crash at any point
   * of a save and the recovery at the next start, loading yields the list just saved
   * or whatever loaded before the save.
   */
  lemma CrashThenLoad(d0: FileMap, tempn: string, tempo: string, c: Codec, secrets: seq<Secret>, now: int,
                      f: SaveFaults, checkClose: bool, s: FileMap, listing: seq<string>)
    requires FreshTempNames(d0, tempn, tempo) && Settled(d0) && RoundTrips(c)
    requires checkClose || !f.write.LostOnClose?
    requires s in [d0] + Save(d0, tempn, tempo, c.encode(secrets), now, f, checkClose).trace
    requires ListsExactly(listing, s)
    ensures var l := LoadSecrets(Cleanup(s, listing, NoFaults), Some(c));
      l == Some(secrets) || l == LoadSecrets(d0, Some(c))
  {
    CrashThenRecover(d0, tempn, tempo, c.encode(secrets), now, f, checkClose, s, listing);
  }

  /** The SD card after a backup, and the value `backupSecrets` returns. */
  datatype BackupRun = BackupRun(files: FileMap, success: bool)

  /**
   * `backupSecrets`: without a cipher nothing happens and the result is false;
   * otherwise the encoded list is written to the backup file, and the result is true
   * when writing raised no exception. As written (`checkClose` false) a failing
   * `close()` is ignored, like a complete write.
   */
  function Backup(sd: FileMap, cipher: Option<Codec>, secrets: seq<Secret>, now: int, w: WriteFault,
                  checkClose: bool): (r: BackupRun)
    ensures cipher.None? ==> r == BackupRun(sd, false)
    ensures forall n | n != SdcardFileName :: (n in r.files <==> n in sd) && (n in r.files ==> r.files[n] == sd[n])
    ensures r.success <==> cipher.Some? && (w.Completes? || (w.LostOnClose? && !checkClose))
    ensures r.success && (checkClose || !w.LostOnClose?) ==>
      SdcardFileName in r.files && r.files[SdcardFileName].data == cipher.value.encode(secrets)
  {
    match cipher
    case None => BackupRun(sd, false)
    case Some(c) =>
      BackupRun(Written(sd, SdcardFileName, c.encode(secrets), now, w), w.Completes? || (w.LostOnClose? && !checkClose))
  }

  /** `backupSecrets` on the SD card directory, as written. */
  method BackupSecrets(sd: Directory, cipher: Option<Codec>, secrets: seq<Secret>, now: int, w: WriteFault)
    returns (success: bool)
    modifies sd
    ensures var run := Backup(old(sd.files), cipher, secrets, now, w, false);
      sd.files == run.files && success == run.success
    ensures sd.history == old(sd.history) + (if cipher.None? then [] else [sd.files])
  {
    if cipher.None? {
      return false;
    }
    sd.Write(SdcardFileName, cipher.value.encode(secrets), now, w);
    success := w.Completes? || w.LostOnClose?;
  }

  /** A backup reported as successful restores the list, when `close()` failures are reported. */
  lemma BackupThenRestore(sd: FileMap, c: Codec, secrets: seq<Secret>, now: int, w: WriteFault, checkClose: bool)
    requires RoundTrips(c) && (checkClose || !w.LostOnClose?)
    ensures var run := Backup(sd, Some(c), secrets, now, w, checkClose);
      run.success ==> RestoreSecrets(run.files, Some(c)) == Some(secrets)
  {
  }

  /**
   * The backup as written reports success although `close()` lost the tail of the
   * file: the backup file holds a strict prefix of the encoding, and restoring
   * decodes that prefix; the corrected backup reports the failure.
   */
  lemma BackupCloseFailure(sd: FileMap, c: Codec, secrets: seq<Secret>, now: int, kept: nat)
    requires RoundTrips(c) && kept < |c.encode(secrets)|
    ensures var run := Backup(sd, Some(c), secrets, now, LostOnClose(kept), false);
      && run.success
      && SdcardFileName in run.files
      && run.files[SdcardFileName].data == c.encode(secrets)[..kept]
      && run.files[SdcardFileName].data != c.encode(secrets)
      && RestoreSecrets(run.files, Some(c)) == c.decode(c.encode(secrets)[..kept])
      && !Backup(sd, Some(c), secrets, now, LostOnClose(kept), true).success
  {
  }
}
