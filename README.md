# Secrets for Android: persistence engine and secrets server, modelled in Dafny

This project models two parts of Secrets for Android and proves properties of them.

**The on-device persistence engine** (`FileUtils`):
- The application's private directory is a `Directory` object holding a map from file name to (bytes, last-modified time). Its three primitives (write, rename, delete) can each fail. Whether one fails is an input.
- The directory also keeps a ghost `history`: the directory after every primitive operation. Each primitive is taken to be durable and ordered once it returns, so a crash is the death of the process on such a file system, and it can leave behind any state in that history. The code never syncs, so a power loss on a file system that caches writes can leave other states; these are outside the crash theorems.
- On this directory the model runs:
  - `saveSecrets`, the four-step crash-safe swap of the primary `secrets` file (write "new", move primary to "old", move "new" to primary, delete "old");
  - `cleanupDataFiles`, the startup recovery that deletes "new" files and promotes the newest "old" file when the primary is missing;
  - `secretsExist`, `deleteSecrets`, `loadSecrets`, `backupSecrets` and `restoreSecrets`.
- The main theorem covers a crash after any prefix of a save, followed by recovery. It shows that the primary then holds the new payload or the previous file, and that an existing store is never lost. It holds from a settled directory, where every leftover "old" file is strictly older than the primary, and whenever `close()` does not fail. Recovery without faults always leaves a settled directory. The code as written breaks the theorem when `close()` fails, and it can itself leave an unsettled directory (see Findings). A corrected save that purges stale "old" files first keeps the theorem without the settledness condition.
- CSV interchange is modelled on rows of fields: export, choice of the file to import, header detection (native or OI Safe), and import with its row mapping. Import of an export is proved to give the secrets back.

**The secrets server** (App Engine):
- The datastore is a sequence of `UserRecord(email, salt, secrets, enabled)`, in query order.
- The handlers are modelled twice:
  - as functions from (table, request) to (table, response);
  - as methods that update a `Datastore` object in place, each proved to follow its function.
- The handlers covered are: GET, PUT and DELETE on `/secret`, including the administrator-only `http_method=DELETE` override, and GET on `/enable`.
- Lemmas relate the handlers to each other: PUT-then-GET, DELETE-then-GET, enable-then-GET, and preservation of "at most one record per email".

Modules:
- `Strings`: substring search, case-insensitive comparison, decimal rendering.
- `Storage`: the directory and its primitives.
- `Recovery`: `cleanupDataFiles`.
- `AtomicSave`: `saveSecrets`.
- `CrashSafety`: the durability theorem.
- `SecretsFile`: load, restore, exists, delete, backup.
- `Records`: the secret record.
- `Interchange`: CSV.
- `ServerHelper`, `SecretPage`, `EnablePage`: the server.

## Model

| member | source | states |
|---|---|---|
| Storage.SecretsFileUntagged | src/net/tawacentral/roger/secrets/FileUtils.java:53 | The primary file name contains neither "new" nor "old", so recovery never deletes or promotes it. |
| Storage.Directory.Write | src/net/tawacentral/roger/secrets/FileUtils.java:173-175 | Creating and writing a file either leaves the directory unchanged (not created) or sets that one file to the kept prefix of the payload with the current time. The history gains the new state. |
| Storage.Directory.Delete | src/net/tawacentral/roger/secrets/FileUtils.java:113 | Delete returns true iff the file existed and the platform did not refuse. Only then is that file removed. The history gains the new state. |
| Storage.Directory.Rename | src/net/tawacentral/roger/secrets/FileUtils.java:132 | Rename returns true iff the source existed and did not fail. Only then does the entry move, modification time included, replacing the target. |
| Recovery.CleanupDataFiles | src/net/tawacentral/roger/secrets/FileUtils.java:105-134 | For every listing and every fault combination, the loop that deletes and tracks `mostRecent`, followed by the final rename, leaves exactly the directory given by the fold `Cleanup`. |
| Recovery.ScanWithoutFaults | src/net/tawacentral/roger/secrets/FileUtils.java:110-129 | After visiting any prefix of a duplicate-free listing: untagged files are untouched. Every visited "new" file is gone, and so is every "old" file when the primary exists. Otherwise exactly the first newest "old" file is held and every other visited "old" file is gone. |
| Recovery.CleanupWithoutFaults | src/net/tawacentral/roger/secrets/FileUtils.java:110-132 | Recovery without faults removes every tagged file and keeps every untagged one. A primary appears iff it was missing and some "old" file exists; it then holds the contents of the "old" file that is newest, the first one listed winning ties. |
| Recovery.FirstNewestUnique | src/net/tawacentral/roger/secrets/FileUtils.java:117-126 | In a duplicate-free listing, at most one file is "the newest old file, first seen on ties", so the promoted file is well defined. |
| Recovery.ScanOfUntagged | src/net/tawacentral/roger/secrets/FileUtils.java:110-129 | A listing with no tagged name leaves the directory unchanged and holds no file. |
| Recovery.CleanupIdempotent | src/net/tawacentral/roger/secrets/FileUtils.java:105-134 | Running recovery a second time on its own result changes nothing. |
| Recovery.ScanTouchesOnlyTagged | src/net/tawacentral/roger/secrets/FileUtils.java:110-129 | Whatever deletes fail, the loop never changes an untagged file, and it only holds an "old" candidate when the primary is missing. |
| Recovery.CleanupKeepsUntagged | src/net/tawacentral/roger/secrets/FileUtils.java:110-132 | Whatever fails, recovery keeps an existing primary and every other untagged file exactly as they were. |
| Strings.DecimalInjective | src/net/tawacentral/roger/secrets/FileUtils.java:166-169 | Different counter values render as different strings, so every iteration tries new names. |
| AtomicSave.TempNameInjective | src/net/tawacentral/roger/secrets/FileUtils.java:164-168 | Candidate names of equal-length tags are equal only for the same tag and the same counter. |
| AtomicSave.TempNameTags | src/net/tawacentral/roger/secrets/FileUtils.java:161-168 | With a timestamp prefix, the "new" candidate counts as a "new" file and the "old" candidate as an "old" one (it does not contain "new"), and the two differ. |
| AtomicSave.PickTempNames | src/net/tawacentral/roger/secrets/FileUtils.java:161-169 | The counter loop terminates. It returns the first candidate pair of which neither name exists, so the names are fresh and distinct, and every earlier pair had a name already taken. |
| AtomicSave.SaveSecrets | src/net/tawacentral/roger/secrets/FileUtils.java:144-209 | The method picks fresh temporary names. Its return code, every intermediate directory and the final directory are those of the function `Save` as written. |
| AtomicSave.MoveAsideStep | src/net/tawacentral/roger/secrets/FileUtils.java:185-190 | Step 2, and the steps after it, produce exactly the states and code of `MoveAside`. |
| AtomicSave.PromoteStep | src/net/tawacentral/roger/secrets/FileUtils.java:192-207 | Steps 3 and 4, including the move-back on failure, produce exactly the states and code of `Promote`. |
| AtomicSave.SaveOutcomes | src/net/tawacentral/roger/secrets/FileUtils.java:170-207 | Under every fault combination: the code is error_save_secrets iff step 1 fails; error_cannot_move_existing iff an existing primary cannot be moved; 0 iff the new file is moved in. The first two errors leave the primary as it was and remove "old". A failed step 3 restores the primary unless the move-back fails, in which case "old" holds it. Success puts the written file in place, "new" is gone, and "old" remains only if its delete failed. No other file is touched. |
| CrashSafety.SafeStateRecovers | src/net/tawacentral/roger/secrets/FileUtils.java:105-134 | From any crash state of the safe shape, recovery leaves a primary holding the new payload or the previous primary, and never loses an existing one. |
| CrashSafety.SaveStatesSafe | src/net/tawacentral/roger/secrets/FileUtils.java:149-207 | Starting from a settled directory, every state a save passes through has the safe shape, provided `close()` failures are reported. |
| CrashSafety.CrashThenRecover | src/net/tawacentral/roger/secrets/FileUtils.java:149-160 | From a settled directory (every leftover "old" file strictly older than the primary, none without a primary), a crash before, during or after a save, followed by recovery, never loses both the old and the new contents, provided `close()` failures are reported or do not occur. |
| CrashSafety.CleanupSettles | src/net/tawacentral/roger/secrets/FileUtils.java:105-134 | Recovery without faults leaves no "old" file, so the directory it leaves is settled. |
| CrashSafety.StaleOldFileRun | src/net/tawacentral/roger/secrets/FileUtils.java:200-203 | From a settled directory, a save whose step 4 delete fails, in the same clock tick as the previous save, returns 0 and leaves an "old" file as recent as the new primary, so the directory is no longer settled. |
| CrashSafety.StaleOldFileLosesBoth | src/net/tawacentral/roger/secrets/FileUtils.java:117-126 | From that directory, a crash right after step 2 of the next save in the same tick, followed by recovery, promotes the stale "old" file: both the previous primary and the new payload are lost. |
| CrashSafety.PurgeKeeps | src/net/tawacentral/roger/secrets/FileUtils.java:96-98 | Deleting "old" files one by one changes no other file and keeps the primary as it was. |
| CrashSafety.CrashThenRecoverPurged | src/net/tawacentral/roger/secrets/FileUtils.java:149-207 | With stale "old" files purged before the primary is moved aside and `close()` failures reported, a crash at any point followed by recovery never loses both versions, from any directory with a primary or without "old" files, whatever the modification times. |
| CrashSafety.PurgedSaveKeepsPrimaryOrNoOld | src/net/tawacentral/roger/secrets/FileUtils.java:149-207 | The corrected save keeps the condition that a primary or no "old" file exists, so `CrashThenRecoverPurged` applies again to the next save, unless the save reports that step 3 failed. |
| CrashSafety.SaveKeepsPrimaryOrNoOld | src/net/tawacentral/roger/secrets/FileUtils.java:149-207 | A save with `close()` failures reported keeps the condition that a primary or no "old" file exists, unless step 3 fails. |
| CrashSafety.CloseFailureLosesBoth | src/net/tawacentral/roger/secrets/FileUtils.java:181-183 | The save as written has a counterexample. When `close()` loses the tail of the file, the save returns 0, the primary holds the truncated bytes, the old file is deleted, and recovery cannot bring either version back. |
| SecretsFile.LoadSecrets | src/net/tawacentral/roger/secrets/FileUtils.java:243-270 | With a cipher and an existing primary, load returns exactly the decoding of that file (null when it does not decode). Without a cipher or without the file it returns null. |
| SecretsFile.RestoreSecrets | src/net/tawacentral/roger/secrets/FileUtils.java:278-300 | With a cipher and an existing SD card backup file, restore returns exactly its decoding. Without a cipher or without the file it returns null. |
| SecretsFile.SecretsExist | src/net/tawacentral/roger/secrets/FileUtils.java:84-88 | When the primary file is missing, nothing can be loaded with any cipher. When it exists, loading with any cipher returns the decoding of its contents. |
| SecretsFile.SaveThenExists | src/net/tawacentral/roger/secrets/FileUtils.java:144-209 | A save that returns 0 leaves the secrets file in place, whether or not `close()` is checked. |
| SecretsFile.DeleteSecrets | src/net/tawacentral/roger/secrets/FileUtils.java:303-307 | Returns true iff the primary existed and the delete did not fail. The directory is the primary's deletion, and after a true result the secrets no longer exist. |
| SecretsFile.DeletedSecretsReturn | src/net/tawacentral/roger/secrets/FileUtils.java:303-307 | As written, a successful delete after a save whose step 4 delete failed leaves the stale "old" file. Recovery at the next start promotes it, so the secrets exist again and hold an earlier list. |
| SecretsFile.PurgedDelete | src/net/tawacentral/roger/secrets/FileUtils.java:303-307 | The corrected delete removes only files. On success the primary and every "old" file are gone. On failure an existing primary is kept unchanged. It keeps the condition that a primary or no "old" file exists. |
| SecretsFile.PurgedDeleteThenRecover | src/net/tawacentral/roger/secrets/FileUtils.java:303-307 | After a successful corrected delete, recovery at the next start promotes nothing: no secrets exist and nothing loads with any cipher. |
| SecretsFile.DeleteThenLoad | src/net/tawacentral/roger/secrets/FileUtils.java:303-307 | After a successful delete the store no longer exists, loading returns null, and every other file is as it was. |
| SecretsFile.SaveThenLoad | src/net/tawacentral/roger/secrets/FileUtils.java:144-209 | With a round-tripping codec, a save returning 0 can be loaded back as the list saved. A save failing at step 1 or 2 leaves what loads unchanged. |
| SecretsFile.CrashThenLoad | src/net/tawacentral/roger/secrets/FileUtils.java:149-160 | From a settled directory, after a crash at any point of a save and the next recovery, loading gives the list just saved or whatever loaded before, provided `close()` failures are reported or do not occur. |
| SecretsFile.Backup | src/net/tawacentral/roger/secrets/FileUtils.java:216-238 | Without a cipher, nothing changes and the result is false. Otherwise only the backup file changes, and the result is true exactly when the write raised nothing; as written, a failed `close()` also returns true. A true result means the file holds the encoded list, except under an ignored `close()` failure. |
| SecretsFile.BackupSecrets | src/net/tawacentral/roger/secrets/FileUtils.java:216-238 | The method writes the SD card directory and returns the result that `Backup` specifies for the code as written. |
| SecretsFile.BackupThenRestore | src/net/tawacentral/roger/secrets/FileUtils.java:216-238 | A backup reported as successful restores the same list, when `close()` failures are reported. |
| SecretsFile.BackupCloseFailure | src/net/tawacentral/roger/secrets/FileUtils.java:233-235 | For every round-tripping codec: when `close()` loses the tail of the encoding, the backup as written still reports success while the file holds a strict prefix of the encoding, and restoring decodes that prefix. The corrected backup reports false. |
| Interchange.ProbeHeader | src/net/tawacentral/roger/secrets/FileUtils.java:473-495 | Column-by-column comparison gives Match iff the header has at least the signature's columns and each is equal ignoring case. It throws (OutOfRange) iff a shorter header agrees as far as it goes. |
| Interchange.DetectFormatCases | src/net/tawacentral/roger/secrets/FileUtils.java:415-420 | The native format is detected iff the first five columns match "Description, Id, PIN, Email, Notes" ignoring case. OI Safe is detected iff the first six match its header. Detection throws iff a header shorter than a signature agrees with it as far as it goes. |
| Interchange.ExtraColumnsIgnored | src/net/tawacentral/roger/secrets/FileUtils.java:486-495 | Columns after the sixth never change the detected format. |
| Interchange.MapRow | src/net/tawacentral/roger/secrets/FileUtils.java:428-454 | A row maps to a secret iff it has at least six columns (OI Safe) or at least five (native or unknown). Otherwise it throws. |
| Interchange.OiSafeKeepsEveryColumn | src/net/tawacentral/roger/secrets/FileUtils.java:429-445 | An OI Safe row maps to: description from column 1, username from 3, password from 4, empty email, and notes made of its notes, a blank line, then "Category: " and the category, then "Website: " and the website exactly when that is non-empty. |
| Interchange.MapRows | src/net/tawacentral/roger/secrets/FileUtils.java:423-457 | The secrets are those of the rows before the first row that does not map, in order. All rows are read iff every row maps. |
| Interchange.Import | src/net/tawacentral/roger/secrets/FileUtils.java:399-470 | The list is cleared and the header row is never imported. An unopenable or empty file, or a header that throws, gives an empty list and false. Rows already imported are kept after an exception: the secrets are those of the data rows before the first row that does not map, and if fewer than all rows were imported, the next row is one that does not map. The result is true iff the format is recognised, every row maps and reading reached the end. |
| Interchange.ImportSecrets | src/net/tawacentral/roger/secrets/FileUtils.java:399-470 | The method clears the list, appends row by row, and leaves the list and result that `Import` specifies. |
| Interchange.ReadRows | src/net/tawacentral/roger/secrets/FileUtils.java:423-457 | The read loop appends exactly the secrets `MapRows` gives and reports whether every row was read. |
| Interchange.MapRowsFirstFailure | src/net/tawacentral/roger/secrets/FileUtils.java:423-457 | The first row that does not map ends the import, with the secrets of the rows before it. |
| Interchange.ExportRows | src/net/tawacentral/roger/secrets/FileUtils.java:315-338 | Export writes the header "Description, Id, PIN, Email, Notes" first, then one row per secret in list order. |
| Interchange.ExportSecrets | src/net/tawacentral/roger/secrets/FileUtils.java:313-346 | Refilling one array per secret writes exactly `ExportRows`. The result is true iff the file opened and at least one secret was written, so an empty list gives false. |
| Interchange.ExportThenImport | src/net/tawacentral/roger/secrets/FileUtils.java:385-388 | Importing an export takes the native branch, succeeds, and gives back every secret in order, with the password as exported. |
| Interchange.FileToImport | src/net/tawacentral/roger/secrets/FileUtils.java:356-374 | No file when neither exists. Otherwise a file that exists: the secrets CSV only if it is strictly newer than an existing OI Safe CSV, and the OI Safe CSV on a tie. |
| ServerHelper.GetHeaderFields | appengine/helper.py:23-37 | Each of email and salt is the header's value when the header is present, and missing otherwise. |
| ServerHelper.Credentials | appengine/secret_page.py:131-134 | The header fields are used when the email header is non-empty. Otherwise both the email and salt query parameters are used, defaulting to empty. |
| ServerHelper.FirstWithEmail | appengine/helper.py:60-65 | The query returns the first record with the email, or nothing iff no record has it. |
| ServerHelper.FindUserRecord | appengine/helper.py:40-68 | With a missing or empty email there is no lookup: (None, False). Otherwise the first record with that email is returned. `exact` holds iff its salt equals the given salt, and never without a record. |
| ServerHelper.FindEnabledUserRecord | appengine/helper.py:71-87 | When the full lookup finds an enabled record, its result is returned unchanged. Otherwise the result is (None, False), so a disabled match is hidden. A returned record is always enabled. |
| ServerHelper.ExactEnabledMatch | appengine/helper.py:84-87 | An enabled lookup is exact iff the email is non-empty and the first record with it is enabled and has exactly the given salt. |
| SecretPage.Get | appengine/secret_page.py:32-67 | `http_method=DELETE` runs delete for an administrator and otherwise gives 403 with no change. A plain GET never changes the table. It answers 200 with the stored secrets iff an enabled record matches both header fields, and 403 otherwise. |
| SecretPage.Put | appengine/secret_page.py:69-115 | A body over 25*1024 bytes gives 403 "Invalid request" with no change. Every 403 or 500 leaves the table unchanged, and the status is 200, 403 or 500. The status is 200 iff the body fits, the email and salt are non-empty, the body is ASCII, and either an enabled record matches exactly or no enabled record has the email (in the corrected PUT, no record at all has it) and the email and salt have at most 500 characters. It is 500, with an empty body, exactly when one of the two storing branches is reached but the datastore refuses the value: a body with a byte from 128 up, or on creation an email or salt over 500 characters. A 200 has an empty body and either overwrites only the secrets of the exactly-matching enabled record, or appends a new enabled record with the given email, salt and body. |
| SecretPage.PutThenGet | appengine/secret_page.py:69-115 | After a successful corrected PUT, a GET with the same headers returns 200 and the body that was stored. |
| SecretPage.PutKeepsUniqueEmails | appengine/secret_page.py:99-109 | The corrected PUT keeps at most one record per email. |
| SecretPage.PutDuplicatesDisabledEmail | appengine/secret_page.py:99-109 | The PUT as written has a counterexample. For the email of a disabled record it returns 200 and inserts a second record with that email, and a GET with the new credentials is still refused. The corrected PUT returns 403 and changes nothing. |
| SecretPage.Delete | appengine/secret_page.py:117-146 | The record is removed iff the credentials, from the headers or else the parameters, exactly match an enabled record, with status 200. Otherwise 403 and no change. |
| SecretPage.DeleteKeepsUniqueEmails | appengine/secret_page.py:136-139 | Deleting keeps at most one record per email. |
| SecretPage.DeleteThenGet | appengine/secret_page.py:117-146 | After a successful delete on a table with one record per email, a GET with the same credentials is refused. |
| SecretPage.SecretsHandler.HandleGet | appengine/secret_page.py:32-67 | The handler updates the datastore and responds as `Get` specifies. |
| SecretPage.SecretsHandler.HandlePut | appengine/secret_page.py:69-115 | The handler updates the datastore and responds as `Put` specifies for the code as written. |
| SecretPage.SecretsHandler.HandleDelete | appengine/secret_page.py:117-146 | The handler removes the record and responds as `Delete` specifies. |
| EnablePage.ParseInt | appengine/enable_page.py:27 | A string parses iff it is an optional sign followed by at least one decimal digit. Its value is that of the digits, negated after a minus. |
| EnablePage.LeadingZeroValue | appengine/enable_page.py:27 | A leading zero does not change the value of a digit string. |
| EnablePage.ParseIntLeadingZero | appengine/enable_page.py:27 | Parsing ignores a leading zero, with or without a sign ("007" reads as 7). |
| EnablePage.ParseIntDecimal | appengine/enable_page.py:27 | Every decimal rendering parses to its number, with or without a sign. |
| EnablePage.EnableFlag | appengine/enable_page.py:27 | The flag is false when the parameter is absent. It fails iff the parameter is not a number. Otherwise it is true iff the number is non-zero. |
| EnablePage.Enable | appengine/enable_page.py:25-52 | A non-numeric flag fails with 500 and no change. Otherwise the lookup ignores whether the record is enabled. On an exact match only that record's flag is set, with 200. Otherwise 403 and no change. |
| EnablePage.EnableKeepsUniqueEmails | appengine/enable_page.py:39-42 | Enabling and disabling keep at most one record per email. |
| EnablePage.EnableThenGet | appengine/enable_page.py:39-47 | After a successful enable request, a GET with the same credentials succeeds iff the flag was set. A disabled user is locked out and can be re-enabled. |
| EnablePage.EnableHandler.HandleGet | appengine/enable_page.py:25-52 | The handler updates the datastore and responds as `Enable` specifies. |

## Left out

- Encryption and Java object serialisation are not modelled in detail. They become a `Codec` value (encode, and a decode that may fail). Lemmas that need decoding to invert encoding take `RoundTrips` as a requirement. `SecurityUtils` is not part of this model.
- `AtomicSave.SaveSecrets` receives the already-encoded bytes instead of the list and cipher.
- Writing is modelled per file, as complete, not created, interrupted after a prefix, or losing the tail at `close()`. Partial writes below the byte level are not modelled.
- The CSV reader and writer (quoting, escaping, line splitting) are abstracted: a file is its sequence of rows of fields. `Interchange.ExportThenImport` therefore assumes the library reads back what it wrote. Null fields are not modelled.
- `Secret.getPassword(true)` is an opaque rendering function passed to export.
- `Interchange.ExportSecrets`: a failing `close()` of the CSV writer, and write errors the writer swallows, are not modelled. Only failure to create the file is.
- The timestamp prefix, the file modification times and the current time are inputs. The system clock is not modelled.
- Crash states come from the directory history. Recovery is assumed to run without faults and on a listing that names every file once. A crash during recovery itself is not modelled; `Recovery.CleanupIdempotent` covers a second, complete run.
- The `synchronized (lock)` blocks are not modelled. The model is sequential, so every locked method is atomic. Logging and execution timers are left out.
- The CSV file-name listing for the user interface (`getCsvFileNames`), the background save service, the OS capability probing, the admin page, the e-mail page and URL routing are not part of this model.
- The datastore returns records in table order, and `fetch(1)` gives the first record with the email. A new record is appended at the end. Datastore write failures are not modelled.
- Whether the current user is an administrator is an input. The login requirement in front of `/enable` is configured outside these handlers and is not modelled.
- HTTP header names are matched exactly; the framework's case-insensitive header lookup is not modelled. Response content types and log lines are left out.
- `EnablePage.ParseInt` accepts only an optional sign followed by ASCII digits. Python's `int()` also strips surrounding whitespace and accepts other forms, so a few values it reads as numbers fail here.
- An uncaught exception in a handler is modelled as status 500 with an empty body. The datastore property checks of appengine/user_record.py:31-40 are modelled where PUT stores values: a `TextProperty` decodes a byte string as ASCII and a `StringProperty` holds at most 500 characters. Clients send base64 bodies, which are ASCII.
- A request body is a byte string, one character per byte, as the framework delivers it, so its length counts bytes. Headers and parameters are not restricted this way.
- `CrashSafety.CrashThenRecover` holds only from a settled directory: every leftover "old" file strictly older than the primary, and none without a primary. `CrashSafety.CleanupSettles` shows that recovery at startup establishes this. A save whose step 4 delete fails can break it without a crash, as `CrashSafety.StaleOldFileRun` shows; the theorem then no longer applies (see Findings).
- `SecretsFile.CrashThenLoad` carries the same settled-directory condition as `CrashSafety.CrashThenRecover`.
- `CrashSafety.CrashThenRecoverPurged` starts from a directory with a primary or without "old" files (`CrashSafety.PrimaryOrNoOld`). Two routes lead outside it. One is a save whose step 3 fails after the primary was moved aside, with the move back failing too; that save reports an error, and `CrashSafety.PurgedSaveKeepsPrimaryOrNoOld` excludes only this code. The other is `deleteSecrets` as written after a save whose step 4 delete failed: it removes the primary and leaves the "old" file (see Findings). `SecretsFile.PurgedDelete` closes this route.
- `Strings.EqualsIgnoreCase` folds only the characters that can equal an ASCII letter ignoring case. This is exact for the ASCII header names it is used with, not for comparing two arbitrary strings.

## Findings

| source | as written | input that shows it | evidently intended | confidence | as-written member | corrected member |
|---|---|---|---|---|---|---|
| src/net/tawacentral/roger/secrets/FileUtils.java:181-183 | An exception from `output.close()` is caught and ignored, and the save goes on to replace the primary and delete the old file. Closing the cipher and object streams is what writes their last bytes. | Existing primary `[7]`; save of `[1, 2]` where `close()` fails after one byte reached the disk: returns 0, primary holds `[1]`, old file deleted | A failing `close()` is a step 1 failure: delete the new file and return error_save_secrets | medium, not executed | CrashSafety.CloseFailureLosesBoth | CrashSafety.CrashThenRecover |
| src/net/tawacentral/roger/secrets/FileUtils.java:233-235 | `backupSecrets` sets success before `close()` and ignores a failing `close()` | Backup with a round-tripping codec whose `close()` loses the tail of the encoding: returns true, and the backup file holds only a strict prefix of the encoding | A failing `close()` makes the backup return false | medium, not executed | SecretsFile.BackupCloseFailure | SecretsFile.BackupThenRestore |
| appengine/secret_page.py:99-109 | PUT looks the user up with the enabled-only lookup, so the email of a disabled user counts as unknown and a second record is created for it | Table with one disabled record for `a@b.c`; PUT with email `a@b.c`, another salt and body `new`: 200, two records with that email, and the following GET is refused | A disabled user cannot be re-created by PUT: refuse with 403 and keep one record per email | high, not executed | SecretPage.PutDuplicatesDisabledEmail | SecretPage.PutThenGet |
| src/net/tawacentral/roger/secrets/FileUtils.java:200-203 | A failing step 4 delete is only logged, so an "old" file can outlive the save. Recovery picks the "old" file by modification time, and a stale file is not necessarily older than the primary: it can be as recent, or newer after the clock moved back | Primary `[0]` at time 5; save `[1]` at time 5 whose step 4 delete fails; then save `[2]` at time 5 and crash after step 2; listing `t.1.old, t.2.new, t.2.old`: recovery promotes `t.1.old`, so the primary holds `[0]` and both `[1]` and `[2]` are lost | A save does not move the primary aside while stale "old" files remain: it deletes them first, or refuses | low, not executed (needs equal modification times or a clock set back) | CrashSafety.StaleOldFileLosesBoth | CrashSafety.CrashThenRecoverPurged |
| src/net/tawacentral/roger/secrets/FileUtils.java:303-307 | `deleteSecrets` deletes only the primary file, so an "old" file left by a save whose step 4 delete failed survives it. At the next start recovery finds no primary and promotes that file | Primary `[1]` and `t.1.old` holding `[0]`, as a save whose step 4 delete fails leaves them; delete returns true; recovery with listing `t.1.old` makes the primary `[0]`, so secrets exist again although the method is documented to delete all of them | Deleting the secrets also deletes the leftover "old" files, and keeps the primary when one of them cannot be deleted | medium, not executed (needs a failed step 4 delete first) | SecretsFile.DeletedSecretsReturn | SecretsFile.PurgedDeleteThenRecover |
