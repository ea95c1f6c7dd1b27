# VideoShower media catalog, interactions and credentials in Dafny

VideoShower is a SwiftUI app for uploading and viewing media. This project
models the parts of it that hold state and make decisions:

- **The media catalog.** It is kept twice, by `MediaStorage` and by
  `MediaManager`. Each keeps:
  - an ordered list of file URLs;
  - a metadata record per URL: file name, size in KB, date, `#`-prefixed
    SHA-256 tag and uploader;
  - copies of both in UserDefaults under `savedMediaURLs` and
    `savedMediaMetadata`.

  The operations are load, prune missing files, save, retag, delete and
  rename. Rename exists only in `MediaStorage`.
- **The interaction relation** of `UserInteractionManager`, also kept inside
  `MediaManager`. It maps each user to the set of users they have
  interacted with, and is stored under `userInteractions`. Registering a
  pair adds each user to the other's set. `canMessage` requires both
  directions.
- **The credential rules:**
  - the five password-strength rules and their messages;
  - the colour of the strength bar;
  - the "Save & Continue" decision of the registration screen;
  - the hex SHA-256 digest stored for a password;
  - the login screen's comparison against the stored user name and digest;
  - the `AuthManager` flag, mirrored into UserDefaults under
    `isAuthenticated`.

Modules:

| file | module | contents |
|---|---|---|
| `wrappers.dfy` | `Wrappers` | `Option` |
| `text.dfy` | `Text` | lower-casing, suffixes, decimal rendering and parsing |
| `hex.dfy` | `Hex` | bytes, 32-byte digests, `%02x` hex rendering and its inverse, UTF-8 encoding |
| `paths.dfy` | `Paths` | file URLs, `absoluteString`, path components, path extension |
| `catalog.dfy` | `Catalog` | the metadata record and the list and map updates of the catalog, as values |
| `interactions.dfy` | `Interactions` | the interaction relation as a value, and its array form |
| `environment.dfy` | `Environment` | UserDefaults (`Defaults`) and the file system (`FileStore`), as objects |
| `storage.dfy` | `Storage` | `class MediaStorage` |
| `media_manager.dfy` | `Manager` | `class MediaManager` |
| `interaction_manager.dfy` | `InteractionManager` | `class UserInteractionManager` |
| `credentials.dfy` | `Credentials` | the registration and login rules |
| `auth.dfy` | `Auth` | `class AuthManager` |

Both catalog classes keep their catalog in fields, as the app does.

- **What each method may change.** Each method `modifies` only what its
  source changes:
  - `SaveFile`, `DeleteFile` and `RenameFile` (with `RenameAt`, its body
    past the bounds guard): the fields, the `Defaults` object and the
    `FileStore`;
  - their main-queue halves (`AppendEntry`, `RemoveEntry`, `ReplaceEntry`):
    the fields and `Defaults`;
  - the loads: one field each;
  - the stores: `Defaults` alone.
- **What each method promises.** Its `ensures` gives the new catalog, the
  new UserDefaults contents (every key, not only the ones written) and, for
  the file operations, the new files.

Two invariants carry the rest:

- `Persisted()`: the stored copies read back as the catalog in memory.
- `Catalog.Covered`: every listed URL has metadata.

How each method treats the invariants:

- `AppendEntry`, `RemoveEntry` and `ReplaceEntry` establish `Persisted()`.
  So do `SaveFile`, `DeleteFile` and `RenameFile` on success. On failure
  these three change nothing.
- `CleanInvalidFiles` and `UpdateFileHash` keep `Persisted()`.
- The constructors establish `Persisted()` whenever a table was stored.
- Save and pruning keep `Covered`. Delete and rename keep it when the URL
  they touch is listed once.
- The single loads and single stores (`LoadStoredMedia`, `LoadMetadata`,
  `PersistMediaURLs`, `PersistMetadata`, `SaveMetadata`) are steps inside
  these operations. Each states its exact effect and no invariant.

The operating system can refuse a write, move or removal. Each such call
takes a `fault` flag that stands for that refusal. The file system's
existing files and the documents directory are state of `FileStore`.

## Model

| member | source | states |
|---|---|---|
| Hex.HexEncode | VideoShower/VideoShower/MediaStorage.swift:91-94 | `%02x` per byte: two lower-case hex characters per byte |
| Hex.HexByte | VideoShower/VideoShower/MediaStorage.swift:93 | `String(format: "%02x", b)`: two lower-case hex characters; `HexRoundTrip` shows they are the high and low nibble |
| Hex.HexValue | VideoShower/VideoShower/MediaStorage.swift:93 | a character has a hex value exactly when it is a lower-case hex digit, and rendering that value gives the character back |
| Hex.HexRoundTrip | VideoShower/VideoShower/MediaStorage.swift:91-94 | decoding the hex rendering of any byte string gives the bytes back |
| Hex.HexEncodeInjective | VideoShower/VideoShower/MediaStorage.swift:91-94 | different contents never render to the same hex text |
| Hex.DigestHexShape | VideoShower/VideoShower/MediaStorage.swift:91-94 | a SHA-256 digest renders as exactly 64 lower-case hex characters |
| Hex.Utf8 | VideoShower/VideoShower/RegistrationView.swift:143 | `password.utf8`: the encoding is at least as long as the text and at most four times as long, and ASCII text keeps its length; `Utf8Injective` proves that distinct strings encode differently |
| Hex.Utf8CharLead | VideoShower/VideoShower/RegistrationView.swift:143 | the lead byte of a character's encoding tells its length: below 0x80 one byte, 0xC0-0xDF two, 0xE0-0xEF three, 0xF0 and up four |
| Hex.Utf8CharInjective | VideoShower/VideoShower/RegistrationView.swift:143 | different characters have different encodings |
| Hex.Utf8CharPrefixFree | VideoShower/VideoShower/RegistrationView.swift:143 | an encoded character followed by more bytes splits off in only one way |
| Hex.Utf8Injective | VideoShower/VideoShower/RegistrationView.swift:143 | two strings with the same UTF-8 bytes are the same string |
| Text.DecimalString | VideoShower/VideoShower/MediaStorage.swift:73 | the interpolated integer is a non-empty digit string without a leading zero |
| Text.DecimalRoundTrip | VideoShower/VideoShower/MediaStorage.swift:73 | reading the decimal text back gives the number |
| Text.LastIndexOf | VideoShower/VideoShower/MediaStorage.swift:72 | absent exactly when the character does not occur; otherwise the position of its last occurrence |
| Text.Lower | VideoShower/VideoShower/MediaStorage.swift:143 | `lowercased()`: same length, each letter mapped to lower case |
| Text.HasSuffix | VideoShower/VideoShower/MediaStorage.swift:143 | `hasSuffix`: the suffix is no longer than the text and its last characters are the suffix; `HasSuffixOfConcat` shows every text ends with what was appended to it |
| Text.HasSuffixOfConcat | VideoShower/VideoShower/MediaStorage.swift:143 | `a + b` ends with `b` |
| Paths.AbsoluteString | VideoShower/VideoShower/MediaStorage.swift:60 | `absoluteString` is the `file://` scheme followed by the path |
| Paths.ParseUrl | VideoShower/VideoShower/MediaStorage.swift:22 | `URL(string:)` yields a URL exactly for strings with the file scheme, and that URL's `absoluteString` is the string |
| Paths.ParseAbsoluteString | VideoShower/VideoShower/MediaStorage.swift:20-23 | parsing a URL's `absoluteString` gives the URL back |
| Paths.AbsoluteStringInjective | VideoShower/VideoShower/MediaStorage.swift:71 | two URLs with the same metadata key are the same URL |
| Paths.LastPathComponent | VideoShower/VideoShower/MediaStorage.swift:72 | `lastPathComponent` holds no `/` and ends the path |
| Paths.AfterLastDot | VideoShower/VideoShower/MediaStorage.swift:141 | the text after a name's last `.` holds no `.` or `/`, and with that `.` it ends the name |
| Paths.AppendThenSplit | VideoShower/VideoShower/MediaStorage.swift:42 | a file name appended to a directory is the result's last component, and deleting that component gives the directory back |
| Paths.AppendingPathComponent | VideoShower/VideoShower/MediaStorage.swift:42 | `appendingPathComponent`: the directory path, `/`, then the name; `AppendThenSplit` is its inverse |
| Paths.DeletingLastPathComponent | VideoShower/VideoShower/MediaStorage.swift:139 | `deletingLastPathComponent()`: the path before its last `/`; `AppendThenSplit` shows it undoes `appendingPathComponent` |
| Paths.PathExtension | VideoShower/VideoShower/MediaStorage.swift:141 | `pathExtension` holds no `.` or `/`, and a non-empty one is preceded by `.` at the end of the file name; `ExtensionOfDottedName` pins its value |
| Paths.LastDotOf | VideoShower/VideoShower/MediaStorage.swift:141 | in `base.e` with no `.` in `e`, the last `.` is the one right after `base` |
| Paths.ExtensionOfDottedName | VideoShower/VideoShower/MediaStorage.swift:141 | the extension of a file named `base.e`, with `base` not empty and no `.` in `e`, is `e` |
| Catalog.FileHash | VideoShower/VideoShower/MediaStorage.swift:91-94 | `generateFileHash` is 64 hex characters that decode to the SHA-256 of the data |
| Catalog.SizeText | VideoShower/VideoShower/MediaStorage.swift:73 | the size field is digits followed by ` KB` |
| Catalog.SizeTextStatesKilobytes | VideoShower/VideoShower/MediaStorage.swift:67-73 | the digits of the size field read back as the file size divided by 1024 |
| Catalog.MakeMetadata | VideoShower/VideoShower/MediaStorage.swift:71-77 | the five fields `saveMetadata` writes; `SavedRecordDescribesFile` states what each field holds |
| Catalog.SavedRecordDescribesFile | VideoShower/VideoShower/MediaStorage.swift:39-49 | the record stored for a saved file has the file's name, a `#` plus a tag that decodes to the SHA-256 of the content, its size in KB and its uploader |
| Catalog.RemoveAt | VideoShower/VideoShower/MediaStorage.swift:123 | `remove(at:)` keeps the elements before the index and shifts those after it down by one |
| Catalog.WithHashTag | VideoShower/VideoShower/MediaStorage.swift:104 | the optional-chained update retags an existing entry only: same keys, other entries unchanged, an absent key stays absent |
| Catalog.WithHashTagLastWins | VideoShower/VideoShower/MediaStorage.swift:102-107 | of two hash updates to one URL the second wins; an update of an absent URL changes nothing |
| Catalog.KeepExisting | VideoShower/VideoShower/MediaStorage.swift:30 | the filter keeps each URL whose file exists as many times as it is listed, drops every other URL, and keeps the order (a subsequence of the list) |
| Catalog.KeepExistingIdempotent | VideoShower/VideoShower/MediaStorage.swift:27-36 | pruning twice prunes nothing more |
| Catalog.KeepExistingAllPresent | VideoShower/VideoShower/MediaStorage.swift:27-36 | a catalog whose files all exist is kept as it is, duplicates included |
| Catalog.PersistedPaths | VideoShower/VideoShower/MediaStorage.swift:59-62 | the stored list holds each URL's `absoluteString`, position by position |
| Catalog.LoadUrls | VideoShower/VideoShower/MediaStorage.swift:20-22 | `compactMap` keeps at most as many URLs as strings, each taken from one of the strings |
| Catalog.UrlListRoundTrip | VideoShower/VideoShower/MediaStorage.swift:19-24 | persisting the URL list and loading it back gives the same list |
| Catalog.FinalNameKeepsExtension | VideoShower/VideoShower/MediaStorage.swift:141-145 | the final name is the requested name, or that name plus `.` and the old extension, and it ends with the old extension ignoring case; the name is kept unchanged exactly when there is no extension or it already ends with the extension ignoring case |
| Catalog.FinalName | VideoShower/VideoShower/MediaStorage.swift:141-145 | the requested name, with `.` and the old extension appended exactly when the extension is not empty and the name does not end with it ignoring case; `FinalNameKeepsExtension` states this in both directions |
| Catalog.NoDotNoExtension | VideoShower/VideoShower/MediaStorage.swift:141 | a file name without `.` has no path extension |
| Catalog.FinalNameSuffixIgnoresDot | VideoShower/VideoShower/MediaStorage.swift:143-146 | renaming a `.jpg` file to `photojpg` keeps that name and leaves the file with no extension |
| Catalog.RenamedUrlStaysInDirectory | VideoShower/VideoShower/MediaStorage.swift:139-146 | for a new name without `/`, the renamed file stays in the old file's directory, under the final name |
| Catalog.RenamedUrl | VideoShower/VideoShower/MediaStorage.swift:139-146 | the old file's directory with the final name appended; `RenamedUrlStaysInDirectory` and `RenamedFileKeepsExtension` state where it lands |
| Catalog.RenamedFileKeepsExtension | VideoShower/VideoShower/MediaStorage.swift:139-146 | for a non-empty new name without `/`: when the old file has an extension that the new name does not end with, the renamed file has that same extension |
| Catalog.SlashNameLeavesDirectory | VideoShower/VideoShower/MediaStorage.swift:135-146 | a new name `sub/n` moves the file out of its directory, into the subdirectory `sub` of it |
| Catalog.NestedName | VideoShower/VideoShower/MediaStorage.swift:139-146 | appending `sub/m` to a directory puts the file in that directory's subdirectory `sub`, which is a different directory |
| Catalog.EmptyNameLosesExtension | VideoShower/VideoShower/MediaStorage.swift:135-146 | an empty new name gives the final name `.` plus the old extension, and the renamed file has no extension |
| Catalog.FinalNameOfEmpty | VideoShower/VideoShower/MediaStorage.swift:141-145 | for an empty requested name and a non-empty extension, the final name is `.` plus the extension |
| Catalog.LeadingDotNoExtension | VideoShower/VideoShower/MediaStorage.swift:141 | a file named `.` plus dot-free text has no extension |
| Catalog.SaveKeepsCovered | VideoShower/VideoShower/MediaStorage.swift:48-49 | appending a URL and recording its metadata keeps every listed URL covered by metadata |
| Catalog.KeepExistingKeepsCovered | VideoShower/VideoShower/MediaStorage.swift:30-32 | pruning keeps every listed URL covered |
| Catalog.DeleteKeepsCovered | VideoShower/VideoShower/MediaStorage.swift:123-124 | deleting a URL that is listed once keeps every other listed URL covered |
| Catalog.RenameKeepsCovered | VideoShower/VideoShower/MediaStorage.swift:151-153 | renaming a URL that is listed once keeps every listed URL covered |
| Catalog.DuplicateDeleteLosesMetadata | VideoShower/VideoShower/MediaStorage.swift:115-127 | with one file name saved twice, deleting one copy leaves the other listed without metadata |
| Interactions.Insert | VideoShower/VideoShower/UserInteractionManager.swift:28 | `[key, default: []].insert(value)` creates the key if missing, adds the value and leaves every other entry alone |
| Interactions.Register | VideoShower/VideoShower/UserInteractionManager.swift:26-32 | the two inserts of `registerInteraction`, target into user's set then user into target's; its partners are the `Register*` lemmas below |
| Interactions.CanMessage | VideoShower/VideoShower/UserInteractionManager.swift:35-41 | both users have an entry and each is in the other's set; `CanMessageSymmetric` and `RegisterNoOpIff` relate it to `Register` |
| Interactions.RegisterEnablesMessaging | VideoShower/VideoShower/UserInteractionManager.swift:26-41 | after registering a pair, each user may message the other |
| Interactions.RegisterFrame | VideoShower/VideoShower/UserInteractionManager.swift:26-32 | registering only adds to the two users' sets, creating them when missing, and leaves every other entry as it was |
| Interactions.RegisterNoOpIff | VideoShower/VideoShower/UserInteractionManager.swift:26-41 | registering changes the relation exactly when the pair could not yet message each other |
| Interactions.RegisterIdempotent | VideoShower/VideoShower/UserInteractionManager.swift:26-32 | registering the same pair twice is the same as once |
| Interactions.RegisterPreservesSymmetry | VideoShower/VideoShower/UserInteractionManager.swift:26-32 | registration keeps every interaction recorded in both directions |
| Interactions.EmptyIsSymmetric | VideoShower/VideoShower/UserInteractionManager.swift:4 | the initial empty relation is symmetric |
| Interactions.CanMessageSymmetric | VideoShower/VideoShower/UserInteractionManager.swift:35-41 | `canMessage` gives the same answer with its arguments swapped |
| Interactions.CanMessageOneDirection | VideoShower/VideoShower/UserInteractionManager.swift:35-41 | on a symmetric relation, `canMessage` holds exactly when the target is in the user's set |
| Interactions.CanMessageNeedsEntries | VideoShower/VideoShower/UserInteractionManager.swift:36-39 | a user without an entry can message nobody and be messaged by nobody |
| Interactions.Elements | VideoShower/VideoShower/UserInteractionManager.swift:15 | `Set(array)` holds exactly the array's elements |
| Interactions.SetToArray | VideoShower/VideoShower/UserInteractionManager.swift:21 | `Array(set)` lists every element of the set exactly once |
| Interactions.FromArrays | VideoShower/VideoShower/UserInteractionManager.swift:14-15 | loading gives each stored user the set of their array's elements, with the same users |
| Interactions.ToArrays | VideoShower/VideoShower/UserInteractionManager.swift:20-22 | persisting gives each user an array of their set's elements without repeats, with the same users |
| Interactions.PersistRoundTrip | VideoShower/VideoShower/UserInteractionManager.swift:13-23 | storing the relation and loading it back gives the same relation, whatever order the arrays were written in |
| Environment.StoredList | VideoShower/VideoShower/MediaStorage.swift:20 | `stringArray(forKey:)` yields the list exactly when a list is stored under the key |
| Environment.StoredMetadata | VideoShower/VideoShower/MediaStorage.swift:84 | the metadata table is read back exactly when a table is stored under `savedMediaMetadata` |
| Environment.StoredAfterWrites | VideoShower/VideoShower/MediaStorage.swift:59-62 | storing the URL list and the table, in either order, leaves both readable |
| Environment.ListWriteKeepsTable | VideoShower/VideoShower/MediaStorage.swift:32-34 | storing the URL list leaves the stored table as it was, and the list reads back |
| Environment.StoreKeysDistinct | VideoShower/VideoShower/MediaManager.swift:58-67 | the four UserDefaults keys the stores write are pairwise different |
| Environment.CatalogUnaffected | VideoShower/VideoShower/MediaManager.swift:65-68 | storing the relation leaves the stored URL list and table as they were |
| Environment.RelationUnaffected | VideoShower/VideoShower/MediaManager.swift:56-63 | storing the URL list and the table, in either order, leaves the stored relation as it was |
| Environment.StoredRelation | VideoShower/VideoShower/UserInteractionManager.swift:14-15 | the relation is read back exactly when a table of arrays is stored under `userInteractions` |
| Environment.Defaults.Set | VideoShower/VideoShower/MediaStorage.swift:61 | `set(_:forKey:)` replaces the value under the key and nothing else |
| Environment.FileStore.SizeOf | VideoShower/VideoShower/MediaStorage.swift:66-67 | an existing file's size is its byte count, a missing file's size is 0 |
| Environment.FileStore.Exists | VideoShower/VideoShower/MediaStorage.swift:30 | `fileExists(atPath:)`: a file is stored under the path; `CleanInvalidFiles` states its result through it |
| Environment.FileStore.Write | VideoShower/VideoShower/MediaStorage.swift:45 | `data.write(to:)` creates or replaces the file unless refused |
| Environment.FileStore.Remove | VideoShower/VideoShower/MediaStorage.swift:121 | `removeItem(at:)` fails for a missing file and otherwise deletes it unless refused |
| Environment.FileStore.Move | VideoShower/VideoShower/MediaStorage.swift:149 | `moveItem(at:to:)` fails when the source is missing or the destination exists, and otherwise moves the content unless refused |
| Storage.MediaStorage.GetFileHash | VideoShower/VideoShower/MediaStorage.swift:97-99 | the hash tag of a URL's entry, and none exactly when the URL has no entry |
| Storage.MediaStorage.constructor | VideoShower/VideoShower/MediaStorage.swift:10-16 | the catalog is the stored list, parsed and pruned to existing files, with the stored table; only the pruned list is written back, and when a table was stored the catalog is persisted |
| Storage.MediaStorage.LoadStoredMedia | VideoShower/VideoShower/MediaStorage.swift:19-24 | the list becomes the parsed stored list, or stays as it was when nothing is stored |
| Storage.MediaStorage.LoadMetadata | VideoShower/VideoShower/MediaStorage.swift:83-88 | the table becomes the stored table, or stays as it was when none is stored |
| Storage.MediaStorage.CleanInvalidFiles | VideoShower/VideoShower/MediaStorage.swift:27-36 | the list becomes `KeepExisting` of itself, so a URL stays exactly when it was listed and `fileExists` holds for its path; only `savedMediaURLs` is rewritten; coverage and persistence are kept |
| Storage.MediaStorage.PersistMediaURLs | VideoShower/VideoShower/MediaStorage.swift:59-62 | stores the list of `absoluteString`s under `savedMediaURLs` |
| Storage.MediaStorage.PersistMetadata | VideoShower/VideoShower/MediaStorage.swift:110-112 | stores the table under `savedMediaMetadata` |
| Storage.MediaStorage.SaveFile | VideoShower/VideoShower/MediaStorage.swift:39-56 | nothing changes without a documents directory or when the write fails; otherwise the file is written, its URL appended and its record stored with the content hash, and UserDefaults changes in exactly the two catalog keys, which read back as the catalog |
| Storage.MediaStorage.AppendEntry | VideoShower/VideoShower/MediaStorage.swift:47-51 | the main-queue block of a save and the block it queues: the URL is appended, the record stored under its key, `getFileHash` returns `#` plus the hash, and UserDefaults gains the new list and then, from the queued block, the new table, nothing else |
| Storage.MediaStorage.SaveMetadata | VideoShower/VideoShower/MediaStorage.swift:65-80 | reads the current size, then (its queued block) records name, size, date, `#` plus the tag and uploader under the URL's key and stores the table |
| Storage.MediaStorage.UpdateFileHash | VideoShower/VideoShower/MediaStorage.swift:102-107 | retags an existing entry to `#` plus the new hash; an absent URL stays absent; the table is stored |
| Storage.MediaStorage.DeleteFile | VideoShower/VideoShower/MediaStorage.swift:115-132 | an index outside the list or a failed removal changes nothing; otherwise the file, the list position and the URL's key are removed, and UserDefaults changes in exactly the two catalog keys |
| Storage.MediaStorage.RemoveEntry | VideoShower/VideoShower/MediaStorage.swift:122-127 | the main-queue block of a delete: the position and the key are removed, and UserDefaults gains the new list and then the new table, nothing else |
| Storage.MediaStorage.RenameFile | VideoShower/VideoShower/MediaStorage.swift:135-160 | an index outside the list or a failed move changes nothing; otherwise the file moves to the final name, the new URL takes the old position, the old key is dropped, a record with an empty tag `#` and an empty uploader is stored under the new key, and UserDefaults changes in exactly the two catalog keys |
| Storage.MediaStorage.RenameAt | VideoShower/VideoShower/MediaStorage.swift:137-160 | past the bounds guard: a failed move changes nothing; otherwise the move, the new URL at the position, the dropped old key, the fresh `#` record under the new key and exactly the two catalog keys rewritten |
| Storage.MediaStorage.ReplaceEntry | VideoShower/VideoShower/MediaStorage.swift:150-155 | the main-queue block of a rename and the block it queues: the position is replaced, the old key dropped, fresh metadata recorded, and UserDefaults gains the new list and then, from the queued block, the new table, nothing else |
| Manager.MediaManager.GetFileHash | VideoShower/VideoShower/MediaManager.swift:113-115 | the hash tag of a URL's entry, and none exactly when the URL has no entry |
| Manager.MediaManager.constructor | VideoShower/VideoShower/MediaManager.swift:11-18 | as for `MediaStorage`, persisted when a table was stored, and the relation becomes the stored one, or empty |
| Manager.MediaManager.LoadStoredMedia | VideoShower/VideoShower/MediaManager.swift:30-35 | the list becomes the parsed stored list, or stays as it was |
| Manager.MediaManager.LoadMetadata | VideoShower/VideoShower/MediaManager.swift:37-42 | the table becomes the stored table, or stays as it was |
| Manager.MediaManager.CleanInvalidFiles | VideoShower/VideoShower/MediaManager.swift:44-53 | the list becomes `KeepExisting` of itself, so a URL stays exactly when it was listed and `fileExists` holds for its path; only `savedMediaURLs` is rewritten |
| Manager.MediaManager.PersistMediaURLs | VideoShower/VideoShower/MediaManager.swift:56-59 | stores the list of `absoluteString`s under `savedMediaURLs` |
| Manager.MediaManager.PersistMetadata | VideoShower/VideoShower/MediaManager.swift:61-63 | stores the table under `savedMediaMetadata` |
| Manager.MediaManager.SaveFile | VideoShower/VideoShower/MediaManager.swift:70-87 | as `MediaStorage.SaveFile`; in addition the relation in memory is untouched, and a stored relation still reads back |
| Manager.MediaManager.AppendEntry | VideoShower/VideoShower/MediaManager.swift:78-82 | the main-queue block of a save and the block it queues, as in `MediaStorage`: the list is stored, then the table, no other key changes, and the stored relation is kept |
| Manager.MediaManager.SaveMetadata | VideoShower/VideoShower/MediaManager.swift:89-104 | records the file's metadata under its key and stores the table |
| Manager.MediaManager.UpdateFileHash | VideoShower/VideoShower/MediaManager.swift:117-122 | retags an existing entry only and stores the table |
| Manager.MediaManager.DeleteFile | VideoShower/VideoShower/MediaManager.swift:124-141 | as `MediaStorage.DeleteFile`; in addition the relation in memory is untouched, and a stored relation still reads back |
| Manager.MediaManager.RemoveEntry | VideoShower/VideoShower/MediaManager.swift:131-136 | the main-queue block of a delete, as in `MediaStorage`, with exactly the two catalog keys rewritten and the stored relation kept |
| Manager.MediaManager.LoadStoredInteractions | VideoShower/VideoShower/MediaManager.swift:22-28 | the relation becomes the stored one, or stays as it was |
| Manager.MediaManager.PersistUserInteractions | VideoShower/VideoShower/MediaManager.swift:65-68 | the stored arrays read back as the relation; no other key changes |
| Manager.MediaManager.RegisterInteraction | VideoShower/VideoShower/MediaManager.swift:145-151 | the relation gains the pair in both directions, both users may message each other, symmetry is kept, the relation is stored, no other key changes, and the stored catalog still reads back |
| InteractionManager.UserInteractionManager.constructor | VideoShower/VideoShower/UserInteractionManager.swift:8-10 | the relation is the stored one, or empty |
| InteractionManager.UserInteractionManager.LoadStoredInteractions | VideoShower/VideoShower/UserInteractionManager.swift:13-17 | the relation becomes the stored one, or stays as it was |
| InteractionManager.UserInteractionManager.PersistUserInteractions | VideoShower/VideoShower/UserInteractionManager.swift:20-23 | the stored arrays read back as the relation; no other key changes |
| InteractionManager.UserInteractionManager.RegisterInteraction | VideoShower/VideoShower/UserInteractionManager.swift:26-32 | the relation gains the pair in both directions, both users may message each other, symmetry is kept, the relation is stored and no other key changes |
| InteractionManager.UserInteractionManager.CanMessage | VideoShower/VideoShower/UserInteractionManager.swift:35-41 | true exactly when both users have an entry and each is in the other's set |
| Credentials.StrongIffAllRules | VideoShower/VideoShower/RegistrationView.swift:121-127 | `isPasswordStrong` holds exactly when all five rules hold |
| Credentials.MessagesDistinct | VideoShower/VideoShower/RegistrationView.swift:105-119 | the five failure messages and the success message are pairwise different |
| Credentials.ValidateAgreesWithStrength | VideoShower/VideoShower/RegistrationView.swift:105-127 | `validatePassword` says "strong" exactly when `isPasswordStrong` holds |
| Credentials.FirstFailure | VideoShower/VideoShower/RegistrationView.swift:105-119 | the index of the first failing rule, with every earlier rule holding; `validatePassword` returns that rule's message, or the strong message when no rule fails |
| Credentials.ValidateReportsFirstFailure | VideoShower/VideoShower/RegistrationView.swift:105-119 | `validatePassword` reports a rule exactly when that rule fails and every earlier rule holds |
| Credentials.ColorFacts | VideoShower/VideoShower/RegistrationView.swift:130-139 | the bar is red exactly for passwords under 8 characters, and every strong password shows green |
| Credentials.GreenIsNotStrong | VideoShower/VideoShower/RegistrationView.swift:130-139 | `ABCDEF1!` shows green yet is not strong, because the colour ignores lower case |
| Credentials.HashPassword | VideoShower/VideoShower/RegistrationView.swift:142-146 | 64 hex characters that decode to the SHA-256 of the password's UTF-8 bytes |
| Credentials.SaveAndContinueDecision | VideoShower/VideoShower/RegistrationView.swift:70-84 | a record is saved exactly when the four fields are filled, the password is strong and confirmed; otherwise the alerts are, in order, empty fields, weak password, mismatch |
| Credentials.SavedRecordHoldsDigest | VideoShower/VideoShower/RegistrationView.swift:80-82 | the saved record holds the digest of the password and never the password itself |
| Credentials.KeysDistinct | VideoShower/VideoShower/RegistrationView.swift:149-154 | the four UserDefaults keys of the user record differ |
| Credentials.IsUppercase | VideoShower/VideoShower/RegistrationView.swift:108 | `isUppercase`, over ASCII: `A` to `Z` |
| Credentials.IsLowercase | VideoShower/VideoShower/RegistrationView.swift:110 | `isLowercase`, over ASCII: `a` to `z` |
| Credentials.IsNumber | VideoShower/VideoShower/RegistrationView.swift:112 | `isNumber`, over ASCII: `0` to `9` |
| Credentials.IsSpecial | VideoShower/VideoShower/RegistrationView.swift:114 | `"!@#$%^&*()".contains($0)`: one of those ten characters |
| Credentials.HasUppercase | VideoShower/VideoShower/RegistrationView.swift:108 | `contains(where: { $0.isUppercase })`: some position holds an uppercase letter |
| Credentials.HasLowercase | VideoShower/VideoShower/RegistrationView.swift:110 | `contains(where: { $0.isLowercase })`: some position holds a lowercase letter |
| Credentials.HasNumber | VideoShower/VideoShower/RegistrationView.swift:112 | `contains(where: { $0.isNumber })`: some position holds a digit |
| Credentials.HasSpecial | VideoShower/VideoShower/RegistrationView.swift:114 | `contains(where: { "!@#$%^&*()".contains($0) })`: some position holds a special character |
| Credentials.RuleMessage | VideoShower/VideoShower/RegistrationView.swift:106-117 | the five alert texts of `validatePassword`, one per rule; `MessagesDistinct` shows they differ from each other and from the strong message |
| Credentials.IsPasswordStrong | VideoShower/VideoShower/RegistrationView.swift:121-127 | at least 8 characters with an uppercase letter, a lowercase letter, a digit and one of `!@#$%^&*()`; `StrongIffAllRules` ties it to the rule list |
| Credentials.ValidatePassword | VideoShower/VideoShower/RegistrationView.swift:105-119 | the message of the first failing rule, or the strong message; `FirstFailure`, `ValidateReportsFirstFailure` and `ValidateAgreesWithStrength` state this |
| Credentials.PasswordStrengthColor | VideoShower/VideoShower/RegistrationView.swift:130-139 | red under 8 characters, green with an uppercase letter, a digit and a special character, yellow otherwise; `ColorFacts` and `GreenIsNotStrong` relate it to strength |
| Credentials.SaveAndContinue | VideoShower/VideoShower/RegistrationView.swift:70-84 | the button action, as an alert or the saved record; `SaveAndContinueDecision` states when each happens |
| Credentials.WriteUserData | VideoShower/VideoShower/RegistrationView.swift:149-154 | `saveUserData`: the four keys read back as the record's fields, and every other key is unchanged |
| Credentials.HandleLogin | VideoShower/VideoShower/LoginView.swift:59-69 | navigate when the user name and the digest match the stored ones, otherwise raise the alert; the login lemmas below state its outcomes |
| Credentials.StoredString | VideoShower/VideoShower/LoginView.swift:60-61 | `string(forKey:) ?? ""`, within the values the app stores: the stored text, or empty when no text is stored |
| Credentials.RegisteredUserCanLogIn | VideoShower/VideoShower/LoginView.swift:59-69 | after registering, the same user name and password navigate to the content view and raise no alert |
| Credentials.WrongCredentialsRejected | VideoShower/VideoShower/LoginView.swift:59-69 | another user name, or a password with another digest, raises the alert and does not navigate |
| Credentials.WrongPasswordRejected | VideoShower/VideoShower/LoginView.swift:59-69 | against a registered user, any other password raises the alert, unless SHA-256 collides on the two passwords' UTF-8 bytes |
| Credentials.NoStoredPasswordRejectsAll | VideoShower/VideoShower/LoginView.swift:60-68 | with no stored password, every login attempt raises the alert |
| Auth.StoredFlag | VideoShower/VideoShower/AuthManager.swift:11 | `bool(forKey:)`, within the values the app stores: true exactly when `true` is stored under the key |
| Auth.AuthManager.constructor | VideoShower/VideoShower/AuthManager.swift:10-12 | the flag is restored from UserDefaults and mirrors it |
| Auth.AuthManager.SetAuthenticated | VideoShower/VideoShower/AuthManager.swift:4-8 | assigning the flag writes it to `isAuthenticated` in UserDefaults |
| Auth.AuthManager.Login | VideoShower/VideoShower/AuthManager.swift:14-22 | returns true exactly for `user` / `password`, then sets and stores the flag; other pairs change nothing; the mirror is kept |
| Auth.AuthManager.Logout | VideoShower/VideoShower/AuthManager.swift:24-28 | the flag is cleared and stored |
| Auth.RestoreAfterRelaunch | VideoShower/VideoShower/AuthManager.swift:4-12 | a manager created over the store that another manager mirrors restores that manager's flag |

## Left out

- SHA-256 is not implemented. Every member that hashes takes the hash
  function as a parameter whose results are 32 bytes.
- Async dispatch is not modelled. `DispatchQueue.main.async` and the global
  utility queue run in the model synchronously. A block queued from inside
  a main-queue block runs after that block, as the main queue is serial:
  `saveMetadata`'s block runs after the save or rename block has stored the
  list, so the model stores the list first and the table second. The
  states between two blocks are not modelled: in the app a listed URL has
  no stored metadata until the second block runs. Interleavings with other
  work are not modelled either. One example: `cleanInvalidFiles` in the
  app filters the list on a background queue, possibly before the loads
  have landed on the main queue.
- Dates are not computed. `creationDate.description` is a `date` string
  parameter. Where the file has no creation date the app falls back to
  `Date()`; that fallback is not modelled either.
- Catalog.LoadUrls: `URL(string:)` is modelled only for the strings the
  stores write, which are file URLs. The model rejects other strings, while
  Foundation would accept other schemes and relative references.
  Percent-encoding is not modelled.
- Paths.PathExtension: Foundation's further rules for unusual extensions are
  not modelled (for example names with spaces, or a trailing `.`).
- Credentials.IsUppercase, IsLowercase and IsNumber cover ASCII only.
  Swift's `Character.isUppercase` and the other properties cover all of
  Unicode. Swift's `count` counts grapheme clusters; the model counts
  characters.
- Text.Lower: `lowercased()` is modelled for ASCII letters only.
- Text.HasSuffix compares raw characters. Swift's `hasSuffix` compares
  characters up to Unicode canonical equivalence, so the rename test can
  differ from the app's for names with combining characters.
- Hex.Utf8 encodes every Dafny `char` as a scalar value. Swift's `String`
  cannot hold the surrogates that Dafny's `char` rules out anyway.
- Data, the number of bytes it holds, and file sizes are unbounded.
  `Int64` sizes are not bounded.
- The metadata dictionary is `[String: [String: Any]]` in the app. The model
  gives it the five string fields the stores always write. Entries of other
  shapes that UserDefaults could hold are not modelled. The app's cast
  `as? [String: [String: Any]]` fails on those; the model has only the one
  shape.
- What `data.write`, `removeItem` and `moveItem` do when the system refuses
  is a `fault` flag. The reason for a refusal (permissions, disk full) is
  not modelled.
- The status lines `print`ed after each file operation are not modelled.
- The SwiftUI views are not modelled: layout, navigation, alerts as
  presented views, and the `ProgressView` bound to `password.count`. Only
  the state that `handleLogin` and the "Save & Continue" action set is
  modelled: the `showAlert` and `navigateToContentView` flags, the alert
  message, and the saved record.
- `FileStorageManager`, `UserData` and the other views are not part of this
  model.
- Singletons (`static let shared`) are not modelled. Each class is built
  over the `Defaults` and `FileStore` objects it is given. Several managers
  can share one store, as the app's `shared` instances do.
- Auth.StoredFlag and Credentials.StoredString read only the value shapes
  the app itself stores. Foundation's `bool(forKey:)` is also true for a
  stored non-zero number or the strings "YES", "true" and "1", and
  `string(forKey:)` also returns the text of a stored number; the model
  reads those as false and as empty.
- Auth.AuthManager.Login: the flag is set synchronously. In the app,
  `login` returns before the main-queue block sets it.

## Where the code departs from what the app implies

The model follows the code in each of these cases.

- Rename drops the file's hash and uploader. The media grid shows
  `getFileHash` as each file's tag (`MediaGridView.swift:41`), so one would
  expect a renamed file, whose content is unchanged, to keep it. But
  `renameFile` records fresh metadata with an empty tag: `getFileHash` then
  returns `#`, and the uploader is empty (`Storage.MediaStorage.RenameFile`).
- Some listed URLs can lose their metadata. One would expect every listed
  URL to have metadata, since the grid looks up each listed file's tag. Saving the same file name twice lists one URL twice,
  under one metadata key. Deleting either copy then removes the key that
  the other copy still needs (`Catalog.DuplicateDeleteLosesMetadata`).
  The coverage results therefore assume the affected URL is listed once
  (`Catalog.OccursOnce`).
- `renameFile` accepts any new name. A name holding `/` moves the file
  into a subdirectory of its directory (`Catalog.SlashNameLeavesDirectory`).
  An empty name gives the file the hidden name `.` plus the old extension,
  so the file no longer has an extension (`Catalog.EmptyNameLosesExtension`).
  The rename results that keep the file in place with its extension
  therefore assume a non-empty name without `/`.
- `cleanInvalidFiles` prunes only the list. The metadata of pruned URLs
  stays in the table.
- The strength colour and the strength test disagree. The bar turns green
  without a lowercase letter, so a green bar does not mean the password
  will be accepted (`Credentials.GreenIsNotStrong`).
- A user may register an interaction with themself. Afterwards they can
  message themself.
