/**
 * The application's private storage directory as the persistence engine sees it:
 * a set of named files, each with its bytes and its last-modified time, and the
 * three primitive operations it uses (create-and-write, rename, delete). Each
 * primitive may fail; whether it does is an input (a fault), so every failure
 * path of the procedures above it can be stated and proved.
 */
module Storage {
  import opened Strings

  type Bytes = seq<bv8>

  /** One file: its contents and `File.lastModified()`. */
  datatype FileEntry = FileEntry(data: Bytes, modified: int)

  /** A directory: file name to file. */
  type FileMap = map<string, FileEntry>

  /** `FileUtils.SECRETS_FILE_NAME`, the primary store file. */
  const SecretsFileName := "secrets"

  /** A temporary "new" file: its name contains `new`. */
  predicate IsNew(name: string) {
    Contains(name, "new")
  }

  /** A temporary "old" file: its name contains `old` and not `new` (`new` is tested first). */
  predicate IsOld(name: string) {
    !Contains(name, "new") && Contains(name, "old")
  }

  /** A name the recovery scan acts on. */
  predicate Tagged(name: string) {
    Contains(name, "new") || Contains(name, "old")
  }

  /** The primary file's name carries neither tag. */
  lemma SecretsFileUntagged()
    ensures !Tagged(SecretsFileName)
  {
    MissingCharNotContained(SecretsFileName, "new", 'n');
    MissingCharNotContained(SecretsFileName, "old", 'o');
  }

  /** `File.delete()` returns true: the file existed and the platform did not refuse. */
  predicate DeleteSucceeds(d: FileMap, name: string, fault: bool) {
    name in d && !fault
  }

  function Deleted(d: FileMap, name: string, fault: bool): FileMap {
    if DeleteSucceeds(d, name, fault) then d - {name} else d
  }

  /** `File.renameTo(to)` returns true: the source existed and the platform did not refuse. */
  predicate RenameSucceeds(d: FileMap, from: string, fault: bool) {
    from in d && !fault
  }

  /** A successful rename moves the entry, modification time included, replacing any target. */
  function Renamed(d: FileMap, from: string, to: string, fault: bool): FileMap {
    if RenameSucceeds(d, from, fault) then (d - {from})[to := d[from]] else d
  }

  /**
   * How writing a whole payload to a fresh stream and closing it goes:
   * it completes; the file cannot be created; the write throws after `kept` bytes
   * reached the disk; or the write returns normally but the bytes still buffered are
   * lost when `close()` fails, so only `kept` bytes reach the disk.
   */
  datatype WriteFault = Completes | NotCreated | Interrupted(kept: nat) | LostOnClose(kept: nat)

  /** The bytes that reach the file. */
  function Kept(payload: Bytes, w: WriteFault): (r: Bytes)
    ensures r <= payload
    ensures w.Completes? ==> r == payload
  {
    match w
    case Completes => payload
    case NotCreated => []
    case Interrupted(k) => payload[..if k < |payload| then k else |payload|]
    case LostOnClose(k) => payload[..if k < |payload| then k else |payload|]
  }

  /** `new FileOutputStream(name)` then writing `payload`: the file is (re)created with what was kept. */
  function Written(d: FileMap, name: string, payload: Bytes, now: int, w: WriteFault): FileMap {
    if w.NotCreated? then d else d[name := FileEntry(Kept(payload, w), now)]
  }

  /** `listing` is what `Context.fileList()` returns for `d`: every file once, nothing else. */
  ghost predicate ListsExactly(listing: seq<string>, d: FileMap) {
    && (forall i, j | 0 <= i < j < |listing| :: listing[i] != listing[j])
    && (forall n :: n in d <==> n in listing)
  }

  /**
   * The directory, updated in place. `history` records the directory after every
   * primitive operation, failed ones included: the states a crash can leave behind.
   */
  class Directory {
    var files: FileMap
    ghost var history: seq<FileMap>

    constructor (initial: FileMap)
      ensures files == initial && history == []
    {
      files := initial;
      history := [];
    }

    method Write(name: string, payload: Bytes, now: int, w: WriteFault)
      modifies this
      ensures files == Written(old(files), name, payload, now, w)
      ensures history == old(history) + [files]
    {
      if !w.NotCreated? {
        files := files[name := FileEntry(Kept(payload, w), now)];
      }
      history := history + [files];
    }

    method Delete(name: string, fault: bool) returns (ok: bool)
      modifies this
      ensures ok == DeleteSucceeds(old(files), name, fault)
      ensures files == Deleted(old(files), name, fault)
      ensures history == old(history) + [files]
    {
      ok := name in files && !fault;
      if ok {
        files := files - {name};
      }
      history := history + [files];
    }

    method Rename(from: string, to: string, fault: bool) returns (ok: bool)
      modifies this
      ensures ok == RenameSucceeds(old(files), from, fault)
      ensures files == Renamed(old(files), from, to, fault)
      ensures history == old(history) + [files]
    {
      ok := from in files && !fault;
      if ok {
        files := (files - {from})[to := files[from]];
      }
      history := history + [files];
    }
  }
}
