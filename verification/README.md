# Face-recognition enrollment cache: a Dafny model of `Database`

`Database` in `source/database.py` keeps three tables in step:

- the raw enrollment folders: a folder name maps to its profile document (`user.json`) and its image (`face.jpg`);
- the encoded store: a uid maps to a pickled `{user_data, encoding}` entry under `database/encoded/users`;
- the index `metadata.pre_encoded`: a uid maps to the folder it was encoded from, saved to `meta.pkl`.

`encodeDatabase` first runs the cleanup pass `_checkPreEncoded`. It then encodes every raw folder that no index entry points to, and saves the index.
`loadDatabase` builds the in-memory `Users` list from the store. Entries whose stored profile no longer matches the folder's `user.json` are "drifted". Each drifted entry is retired and its folder is re-encoded under a fresh uid.
`Database.User` is a validated record: it needs a `str` name and an array encoding, and no profile key may clash with an attribute the object already has.

The model has five modules:

- `Wrappers` (`wrappers.dfy`) holds `Option`, `Result` and `Outcome`. A raised exception becomes a `Failure`/`Fail` carrying an `Error`.
- `Records` (`records.dfy`) holds profile values, store entries, raw folders, the `meta.pkl` states and the exceptions the core raises.
- `UserRecord` (`user.dfy`) holds `Database.User`: its constructor, and `get_data` as loops over the profile keys.
- `Reconcile` (`reconcile.dfy`) states the rules on values:
  - the consistency invariant;
  - the cleanup pass as the pair `CleanStore`/`CleanIndex`;
  - the drift test;
  - the `meta.pkl` format;
  - the uid supply;
  - what an encoding pass may add.
- `Reload` (`reload.dfy`) states the two passes of `loadDatabase` on values:
  - `ModifiedUsers` and `ScannedUsers` give what the scan of the index yields, in iteration order;
  - `SwapIndex`, `SwapStore` and `ReencodedUsers` give what the replacement of the drifted entries leaves behind.
- `Sync` (`sync.dfy`) holds class `Database`. Its fields are the three tables, the `meta.pkl` state, `Users` and the set of uids ever issued. Each method of the source is a method that updates these fields in place and is proved against the functions above.

The filesystem is modelled as maps. The face encoder is the function-valued field `extract`, whose `None` result is the `IndexError` of `face_encodings(...)[0]`. Uid generation is a fresh-name supply.

## Model

| member | source | states |
|---|---|---|
| UserRecord.NewUser | source/database.py:14-27 | the constructor succeeds exactly when the name is a `str`, the encoding is an array and no profile key clashes with an attribute; a missing name raises KeyError on `name`, a non-`str` name raises the name error, a non-array raises the type error, a clash names a key that is both in the profile and an existing attribute; on success the attributes are the profile and the vector is the encoding |
| UserRecord.GetData | source/database.py:30-34 | `get_data` returns exactly the attributes the constructor attached, i.e. the original profile |
| Sync.Database.constructor | source/database.py:37-39 | starts with an empty `Users`, an empty `pre_encoded`, and the tables on disk |
| Sync.Database.GetMetadata | source/database.py:91-100 | a missing or empty `meta.pkl` gives an empty index, a pickled one gives its index, a corrupt one raises |
| Reconcile.LoadIndex | source/database.py:91-100 | the index read from each `meta.pkl` state; it fails only on a corrupt file |
| Sync.Database.UpdateMetadata | source/database.py:103-112 | saves the whole index, and reading it back yields that index |
| Reconcile.SavedIndexLoadsBack | source/database.py:98-112 | what `_updateMetadata` writes, `_getMetadata` reads back unchanged; because pickling is not modelled (`meta.pkl` holds the index itself), this round trip holds by construction |
| Sync.Database.AddUser | source/database.py:80-83 | appends exactly the user built from the entry when the constructor accepts it; otherwise `Users` is unchanged |
| Sync.Database.RemoveUser | source/database.py:86-88 | removes exactly `uid` from the store and the index; a missing store file raises FileNotFoundError and changes nothing, a missing index key raises KeyError after the file is gone |
| Sync.Database.NewUid | source/database.py:168 | hands out a uid never held by the store or the index, and records it |
| Reconcile.FreshUid | source/database.py:168 | the new name is outside the used set, and longer than every used name |
| Sync.Database.EncodeUser | source/database.py:154-178 | a missing folder or an image without a face raises and changes nothing; otherwise exactly one new uid, never issued before, is added to the store and the index, the index maps it to the folder, and the stored entry holds the folder's current profile and encoding |
| Sync.Database.CheckPreEncoded | source/database.py:115-136 | the store and the index become exactly `CleanStore`/`CleanIndex` of the old tables, with the guard on line 135 described under Findings |
| Sync.Database.DeleteOrphans | source/database.py:118-121 | deletes exactly the store files the index does not name; indexed files are untouched |
| Sync.Database.DanglingEntries | source/database.py:123-131 | lists a uid exactly when it is indexed and its store file was not in the listing or its folder is not in the raw listing |
| Sync.Database.DropEntries | source/database.py:133-136 | pops exactly the listed uids still in the index, once even when listed twice, with their store files; every other entry is unchanged |
| Reconcile.CleanupConsistent | source/database.py:115-136 | after the cleanup pass every store file is indexed, every index entry has its store file, and every indexed folder exists |
| Reconcile.CleanupKeepsGoodEntries | source/database.py:123-136 | any part of the index backed by store files and live folders survives the cleanup unchanged, and surviving store files are untouched |
| Reconcile.CleanupIdentityWhenConsistent | source/database.py:115-136 | on consistent tables the cleanup pass changes nothing |
| Reconcile.CleanupIdempotent | source/database.py:115-136 | running the cleanup pass twice is the same as running it once |
| Reconcile.CheckPreEncodedAsWritten | source/database.py:115-136 | the pass as written raises FileNotFoundError exactly when some indexed uid has no store file; otherwise it yields `CleanStore`/`CleanIndex` |
| Reconcile.LostStoreFileAbortsCleanup | source/database.py:123-136 | an index with one entry and no store file makes the pass as written fail, while the corrected pass drops the entry and leaves consistent tables |
| Reconcile.IsModifiedUser | source/database.py:139-151 | raises on a missing store file, a missing index key or a missing `user.json`, in that order; returns true exactly when the stored profile is not `==` (Python's equality, `Records.ProfileEq`) to the folder's current profile |
| Reconcile.EncodedEntryIsNotModified | source/database.py:139-175 | an entry just written by `_encodeUser` is never reported modified |
| Reconcile.EditedProfileIsModified | source/database.py:139-151 | editing an encoded folder's `user.json` to a profile that is not `==` to the stored one makes its entry modified |
| Reconcile.RetypedFlagIsNotModified | source/database.py:147-151 | a `user.json` edited from `"admin": 1` to `"admin": true` is a different value but `==` the stored profile, so the entry is not modified |
| Records.ValueEqReflexive | source/database.py:147 | every JSON value is `==` to itself under the model of Python's `==` |
| Records.ProfileEqReflexive | source/database.py:147 | every profile is `==` to itself |
| Records.ValueEqSymmetric | source/database.py:147 | Python's `==` on JSON values is symmetric |
| Records.BoolEqualsOne | source/database.py:147 | `{"admin": 1}` and `{"admin": true}` are `==` though they are different values |
| Sync.Database.EncodeDatabase | source/database.py:181-186 | the tables end consistent; the run succeeds exactly when every folder left unindexed after the cleanup has a face; on success every raw folder is indexed and the index is saved; new entries are fresh encodings under unused uids, at most one per folder, and kept entries are untouched; a second run with no external change leaves the tables as they are; the set of issued uids only grows, so no uid the cleanup retired is handed out again by a later call. This is the corrected cleanup: see "## Left out" |
| Sync.Database.EncodeMissing | source/database.py:183-185 | encodes each raw folder that no index entry points to, keeping the tables consistent; fails exactly when such a folder has no face; the set of issued uids only grows |
| Reconcile.InsertedFolder | source/database.py:175 | indexing a folder under a new uid adds that folder to the indexed folders |
| Reconcile.ExtendByOne | source/database.py:183-185 | encoding one more unindexed folder under an unused uid keeps "the base tables plus fresh encodings, one per folder" |
| Reconcile.NothingToEncode | source/database.py:183-185 | when every folder is already indexed, the encoding loop adds nothing |
| Sync.Database.LoadDatabase | source/database.py:189-208 | succeeds exactly when every index entry's store file and folder exist, every fresh entry builds a user, and every drifted folder re-encodes into a user; on success it states the index, the store and `Users` as `SwapIndex`, `SwapStore`, `ScannedUsers` and `ReencodedUsers` of the old tables. `Users` grows by exactly the size of the old index, the set of indexed folders is unchanged, no entry is modified afterwards, consistency is preserved and the index is saved; a failure leaves `meta.pkl` alone; in every case the set of issued uids only grows |
| Reload.IterationOrder | source/database.py:192 | `pre_encoded.items()` visits every uid of the index exactly once |
| Reload.ListingCardinality | source/database.py:192 | a listing that visits each element of a set once is as long as the set is large |
| Sync.Database.ScanIndex | source/database.py:192-201 | the scan gets through exactly when every visited entry's store file and folder exist and its fresh user builds; then `modified_users` is `ModifiedUsers` and the appended users are `ScannedUsers` of the visit order |
| Sync.Database.ScanEntry | source/database.py:193-201 | for one entry: opens the store file, runs the drift test, and appends the stored user exactly when the entry has not drifted |
| Reload.ModifiedUsers | source/database.py:192-199 | every listed pair is a visited uid that has drifted, paired with the folder the index maps it to |
| Reload.ModifiedUsersComplete | source/database.py:192-199 | a uid is listed exactly when it was visited and has drifted |
| Reload.ModifiedUsersDistinct | source/database.py:192-199 | scanning distinct uids lists each drifted uid once |
| Reload.ScannedUsers | source/database.py:192-201 | each visited uid yields either one stored user or one listed entry |
| Reload.ScanStep | source/database.py:192-201 | visiting one more uid extends either the listed entries or the scanned users by exactly that uid |
| Reload.LoadCount | source/database.py:192-201 | the scan yields one user or one listed entry per index entry |
| Sync.Database.ReplaceModified | source/database.py:203-206 | succeeds exactly when every listed folder re-encodes into a user; then the new uids are distinct and never issued before, and the index, the store and `Users` are `SwapIndex`, `SwapStore` and the old list plus `ReencodedUsers`; in every case the set of issued uids only grows |
| Sync.Database.ReplaceEntry | source/database.py:204-206 | for one listed entry: removes it, re-encodes the folder under a never-issued uid, and appends the re-encoded user |
| Reload.ReencodedUsers | source/database.py:203-206 | one re-encoded user per listed entry |
| Reload.ReplaceStep | source/database.py:203-206 | replacing one more listed entry removes its uid and adds the folder's fresh encoding under the new uid, in both tables, and appends its user |
| Reload.ReplaceEnd | source/database.py:203-206 | once every listed entry is replaced, the tables are the swapped tables of the whole list |
| Reload.SwapIndexAt | source/database.py:203-206 | after the replacement a uid is indexed exactly when it was indexed and not listed, or is a new uid; kept entries map to the same folder |
| Reload.SwapIndexRenewed | source/database.py:203-206 | the k-th new uid maps to the k-th listed folder |
| Reload.SwapIndexLookup | source/database.py:203-206 | the two facts above for every uid |
| Reload.SwapStoreAt | source/database.py:203-206 | after the replacement a store file exists exactly when it existed and was not listed, or is a new uid; kept files are unchanged |
| Reload.SwapStoreRenewed | source/database.py:203-206 | the k-th new uid's file holds the re-encoding of the k-th listed folder |
| Reload.SwapStoreLookup | source/database.py:203-206 | the two facts above for every uid |
| Reload.SwapKeepsFolders | source/database.py:203-206 | replacing the listed entries keeps the set of indexed folders |
| Reload.SwapKeepsConsistent | source/database.py:203-206 | the replacement keeps the set of indexed folders and keeps consistent tables consistent |
| Reload.LoadableIff | source/database.py:189-206 | the load gets through exactly when the scan gets through and every listed folder re-encodes into a user |
| Reload.LoadableScans | source/database.py:189-206 | if every index entry loads, the scan gets through and every listed folder re-encodes into a user |
| Reload.ScanLoads | source/database.py:189-206 | if the scan gets through and every listed folder re-encodes into a user, every index entry loads |
| Reload.NoneModified | source/database.py:189-208 | after a successful load no index entry is reported modified |
| Reload.LoadSettles | source/database.py:189-208 | after a successful load the indexed folders are unchanged, no entry is modified, and consistent tables stay consistent |

## Left out

- Files, pickling and JSON: the raw folders, the store and `meta.pkl` are maps and values. File handles, `truncate` and the encoding of pickles and JSON are not modelled.
- `meta.pkl`: only its `pre_encoded` table is modelled. A pickled dictionary without that key, or with other keys, is not distinguished from one with only `pre_encoded`.
- Face extraction: `face_recognition.load_image_file` and `face_encodings` are the field `extract`, an arbitrary function from the image to an optional encoding. `faceEncodingArgs` and the configuration file are not modelled.
- Uids: the random `{nnnnn-nnnnn-nnnnn}.dat` names of line 168 are replaced by `Reconcile.FreshUid`, which returns a name longer than every uid the store or the index has held. The source's random names can collide, which this model excludes.
- Iteration order: Python iterates a dictionary in insertion order and `os.listdir` in directory order. The model picks an arbitrary next element. So the order of `Users`, and which of two folders with the same content is encoded first, are only stated relative to the order `LoadDatabase` returns.
- A failed run: after an exception the model returns with the tables as the completed steps left them. The postconditions state only that `meta.pkl` is not saved, that `Users` keeps its old prefix, and that the uid invariant holds.
- `_setup`, the construction of `folders` and `config`, and `_createObject`'s dynamic classes: directory bootstrap and plumbing. Here `__init__` is the constructor, which leaves `pre_encoded` empty, followed by a separate call to `Sync.Database.GetMetadata`, because a constructor cannot fail.
- `print` diagnostics, and `source/FaceRecognition.py`, the camera loop and matcher: outside this model.
- Numpy arrays: an encoding is an opaque sequence of integers, and "not an array" is a separate constructor of `Encoding`.
- `Database.User` as a `list` subclass: only the attributes and the vector are kept. The reserved attribute names are those of a `list` subclass instance in Python 3.11, plus `available_attrs` and `get_data`.
- A `user.json` or `face.jpg` that exists but cannot be read: a folder is either present with both files or absent.
- Reconcile.IsModifiedUser: profiles are compared with `Records.ProfileEq`, a model of Python's `==` on `json.load` results (`True == 1`, `False == 0.0`, lists element by element, dicts by keys and values). A JSON number is the exact value of the Python `int` or `float` it parses to; the rounding of decimal text to a double is not modelled. `NaN` and `Infinity` cannot be represented. In Python `NaN != NaN`, so a profile holding `NaN` is reported modified on every load; the model cannot express that.
- Sync.Database.EncodeDatabase and Sync.Database.DropEntries run the corrected cleanup of the Findings row, which skips the removal at line 135 when the store file is already gone. As written, `encodeDatabase` also raises FileNotFoundError, before encoding anything and without saving `meta.pkl`, exactly when `Reconcile.CheckPreEncodedAsWritten(old(store), old(index), raw.Keys)` fails, that is, when some indexed uid has no store file. The success condition stated for `EncodeDatabase` is the corrected program's.

Where the documented behaviour and the code disagree, the model follows the code, except at line 135 (see "## Findings"), where it models the corrected removal:

- A folder without a face makes `encodeDatabase` and `loadDatabase` raise, rather than skipping that folder.
- A corrupt `meta.pkl` raises, rather than giving an empty index.
- The only check on `name` is that it is a `str`; it may be empty.

## Findings

| source | as written | input that shows it | evidently intended | confidence | as-written member | corrected member |
|---|---|---|---|---|---|---|
| source/database.py:133-136 | for every listed uid still in the index, line 135 deletes its store file unconditionally | an index `{"{0}.dat": "alice"}`, no store file `{0}.dat`, and a raw folder `alice`: the entry is flagged "Unable to locate", then `os.remove` raises FileNotFoundError and the cleanup aborts | an entry whose store file is gone is dropped from the index, leaving consistent tables | not executed | Reconcile.CheckPreEncodedAsWritten | Sync.Database.CheckPreEncoded |
