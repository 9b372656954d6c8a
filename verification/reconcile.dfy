/**
 * The reconciliation rules of `Database`, stated on values: the three
 * tables (raw folders, encoded store, index), the invariant that ties them
 * together, the cleanup pass, the drift test and the index file format.
 * The class in module Sync performs these steps in place.
 */
module Reconcile {
  import opened Wrappers
  import opened Records
  import opened UserRecord

  /** `database/raw`: folder name to its profile document and image. */
  type Raw = map<string, Folder>

  /** `database/encoded/users`: uid to the pickled user in that file. */
  type Store = map<string, Entry>

  /** `metadata.pre_encoded`: uid to the folder its entry was encoded from. */
  type Index = map<string, string>

  /**
   * The tables agree: every store file is indexed, every index entry has
   * its store file, and every indexed folder is present in the raw listing.
   */
  ghost predicate Consistent(store: Store, index: Index, folders: set<string>) {
    store.Keys == index.Keys && index.Values <= folders
  }

  /** The index after the cleanup pass: entries with a store file and a live folder. */
  function CleanIndex(store: Store, index: Index, folders: set<string>): Index {
    map u | u in index && u in store && index[u] in folders :: index[u]
  }

  /** The store after the cleanup pass: the files of the entries CleanIndex keeps. */
  function CleanStore(store: Store, index: Index, folders: set<string>): Store {
    map u | u in store && u in index && index[u] in folders :: store[u]
  }

  /** The cleanup pass leaves the tables consistent. */
  lemma CleanupConsistent(store: Store, index: Index, folders: set<string>)
    ensures Consistent(CleanStore(store, index, folders), CleanIndex(store, index, folders), folders)
  {
    var s, i := CleanStore(store, index, folders), CleanIndex(store, index, folders);
    assert s.Keys == i.Keys;
    forall f | f in i.Values ensures f in folders {
      var u :| u in i && i[u] == f;
    }
  }

  /**
   * The cleanup pass removes nothing it need not: any part of the index
   * that is already backed by store files and live folders survives it,
   * and the surviving store files are untouched.
   */
  lemma CleanupKeepsGoodEntries(store: Store, index: Index, folders: set<string>, part: Index)
    requires forall u :: u in part ==> u in index && index[u] == part[u]
    requires part.Keys <= store.Keys && part.Values <= folders
    ensures forall u :: u in part ==> u in CleanIndex(store, index, folders) && CleanIndex(store, index, folders)[u] == part[u]
    ensures forall u :: u in CleanStore(store, index, folders) ==> u in store && CleanStore(store, index, folders)[u] == store[u]
  {
    forall u | u in part ensures index[u] in folders {
      assert part[u] in part.Values;
    }
  }

  /** On consistent tables the cleanup pass changes nothing. */
  lemma CleanupIdentityWhenConsistent(store: Store, index: Index, folders: set<string>)
    requires Consistent(store, index, folders)
    ensures CleanStore(store, index, folders) == store
    ensures CleanIndex(store, index, folders) == index
  {
    forall u | u in index ensures index[u] in folders {
      assert index[u] in index.Values;
    }
  }

  /** Running the cleanup pass twice is the same as running it once. */
  lemma CleanupIdempotent(store: Store, index: Index, folders: set<string>)
    ensures var s, i := CleanStore(store, index, folders), CleanIndex(store, index, folders);
            CleanStore(s, i, folders) == s && CleanIndex(s, i, folders) == i
  {
    CleanupConsistent(store, index, folders);
    CleanupIdentityWhenConsistent(CleanStore(store, index, folders), CleanIndex(store, index, folders), folders);
  }

  /**
   * `_checkPreEncoded` as written: the removal of line 135 deletes the
   * store file unconditionally, so an index entry whose store file is
   * missing makes it raise FileNotFoundError instead of dropping the entry.
   */
  ghost function CheckPreEncodedAsWritten(store: Store, index: Index, folders: set<string>): (r: Result<(Store, Index), Error>)
    ensures r.Failure? <==> exists u :: u in index && u !in store
    ensures r.Failure? ==> r.error.FileNotFound? && r.error.name in index && r.error.name !in store
    ensures r.Success? ==> r.value == (CleanStore(store, index, folders), CleanIndex(store, index, folders))
  {
    if index.Keys <= store.Keys then
      Success((CleanStore(store, index, folders), CleanIndex(store, index, folders)))
    else
      var lost :| lost in index && lost !in store;
      Failure(FileNotFound(lost))
  }

  /**
   * An index entry whose store file has gone: the pass as written aborts,
   * while the corrected pass drops the entry and leaves consistent tables.
   */
  lemma LostStoreFileAbortsCleanup()
    ensures CheckPreEncodedAsWritten(map[], map["{0}.dat" := "alice"], {"alice"}).Failure?
    ensures CleanIndex(map[], map["{0}.dat" := "alice"], {"alice"}) == map[]
    ensures Consistent(CleanStore(map[], map["{0}.dat" := "alice"], {"alice"}), CleanIndex(map[], map["{0}.dat" := "alice"], {"alice"}), {"alice"})
  {
    assert "{0}.dat" in map["{0}.dat" := "alice"];
    CleanupConsistent(map[], map["{0}.dat" := "alice"], {"alice"});
  }

  /** The entry `_encodeUser` writes for a folder whose image yields `face`. */
  function EncodedEntry(folder: Folder, face: Vector): Entry {
    Entry(folder.profile, NdArray(face))
  }

  /** The stored profile of an indexed entry no longer matches its folder's `user.json`. */
  ghost predicate Drifted(store: Store, index: Index, raw: Raw, uid: string) {
    uid in index && uid in store && index[uid] in raw && !ProfileEq(store[uid].userData, raw[index[uid]].profile)
  }

  /**
   * `_isModifiedUser`: opens the store file, looks the uid up in the index,
   * opens the folder's `user.json`, and compares the two profiles.
   */
  function IsModifiedUser(store: Store, index: Index, raw: Raw, uid: string): (r: Result<bool, Error>)
    ensures r.Success? <==> uid in store && uid in index && index[uid] in raw
    ensures uid !in store ==> r == Failure(FileNotFound(uid))
    ensures uid in store && uid !in index ==> r == Failure(KeyMissing(uid))
    ensures r == Success(true) <==> Drifted(store, index, raw, uid)
  {
    if uid !in store then Failure(FileNotFound(uid))
    else if uid !in index then Failure(KeyMissing(uid))
    else if index[uid] !in raw then Failure(FileNotFound(index[uid] + "/user.json"))
    else Success(!ProfileEq(store[uid].userData, raw[index[uid]].profile))
  }

  /** An entry just encoded from a folder is never reported as modified. */
  lemma EncodedEntryIsNotModified(store: Store, index: Index, raw: Raw, uid: string, folder: string, face: Vector)
    requires folder in raw
    ensures IsModifiedUser(store[uid := EncodedEntry(raw[folder], face)], index[uid := folder], raw, uid) == Success(false)
  {
    ProfileEqReflexive(raw[folder].profile);
  }

  /**
   * Retyping a flag from `1` to `true` in `user.json` is not a change:
   * Python's `==` equates the two profiles, so the entry is kept.
   */
  lemma RetypedFlagIsNotModified()
    ensures var stored := map["name" := Str("a"), "admin" := Number(1.0)];
            var edited := map["name" := Str("a"), "admin" := Bool(true)];
            stored != edited &&
            IsModifiedUser(map["a.dat" := Entry(stored, NdArray([]))], map["a.dat" := "a"],
                           map["a" := Folder(edited, [])], "a.dat") == Success(false)
  {
    var stored := map["name" := Str("a"), "admin" := Number(1.0)];
    var edited := map["name" := Str("a"), "admin" := Bool(true)];
    assert stored["admin"] != edited["admin"];
    assert ProfileEq(stored, edited);
  }

  /** Editing an encoded folder's `user.json` makes its entry modified. */
  lemma EditedProfileIsModified(store: Store, index: Index, raw: Raw, uid: string, edited: Profile)
    requires uid in store && uid in index && index[uid] in raw
    requires !ProfileEq(store[uid].userData, edited)
    ensures IsModifiedUser(store, index, raw[index[uid] := Folder(edited, raw[index[uid]].image)], uid) == Success(true)
  {
  }

  /**
   * `_getMetadata`: the index held by `meta.pkl`; a missing or empty file
   * gives an empty index, a malformed one raises.
   */
  function LoadIndex(file: MetaFile): (r: Result<Index, Error>)
    ensures file.Absent? || file.Empty? ==> r == Success(map[])
    ensures r.Failure? <==> file.Malformed?
    ensures file.Pickled? ==> r == Success(file.preEncoded)
  {
    match file
    case Absent => Success(map[])
    case Empty => Success(map[])
    case Pickled(preEncoded) => Success(preEncoded)
    case Malformed => Failure(UnpicklingError)
  }

  /** What `_updateMetadata` writes, `_getMetadata` reads back. */
  lemma SavedIndexLoadsBack(index: Index)
    ensures LoadIndex(Pickled(index)) == Success(index)
  {
  }

  /**
   * The uid supply: a name longer than every name in `used`, so it can
   * collide with no store file and no uid handed out before.
   */
  method FreshUid(used: set<string>) returns (uid: string)
    ensures uid !in used
    ensures forall u :: u in used ==> |u| < |uid|
  {
    var longest: nat := 0;
    var rest := used;
    while rest != {}
      invariant rest <= used
      invariant forall u :: u in used && u !in rest ==> |u| <= longest
      decreases rest
    {
      var u :| u in rest;
      if |u| > longest {
        longest := |u|;
      }
      rest := rest - {u};
    }
    uid := "{" + seq(longest, _ => '0') + "}.dat";
  }

  /** Adding an entry under a new uid adds its folder to the indexed folders. */
  lemma InsertedFolder(index: Index, uid: string, folder: string)
    requires uid !in index
    ensures index[uid := folder].Values == index.Values + {folder}
  {
    var index' := index[uid := folder];
    forall f | f in index.Values ensures f in index'.Values {
      var u :| u in index && index[u] == f;
      assert index'[u] == f;
    }
    assert index'[uid] == folder;
  }

  /**
   * `uid` is outside `used`, and the store holds, under it, the encoding of
   * the current profile and image of the folder the index maps it to.
   */
  ghost predicate Reencoded(store: Store, index: Index, raw: Raw, extract: Image -> Option<Vector>,
                            used: set<string>, uid: string)
    requires uid in index
  {
    && uid !in used
    && index[uid] in raw
    && extract(raw[index[uid]].image).Some?
    && uid in store
    && store[uid] == EncodedEntry(raw[index[uid]], extract(raw[index[uid]].image).value)
  }

  /** A fresh encoding, under a uid outside `used`, of a folder `base` does not cover. */
  ghost predicate FreshEncoding(base: Index, store: Store, index: Index, raw: Raw,
                                extract: Image -> Option<Vector>, used: set<string>, uid: string)
    requires uid in index
  {
    Reencoded(store, index, raw, extract, used, uid) && index[uid] !in base.Values
  }

  /**
   * `store` and `index` are `baseStore` and `base` untouched, plus fresh
   * encodings under uids outside `used`, at most one per folder.
   */
  ghost predicate ExtendsByEncodings(baseStore: Store, base: Index, store: Store, index: Index, raw: Raw,
                                     extract: Image -> Option<Vector>, used: set<string>)
  {
    && (forall u :: u in base ==> u in baseStore && u in index && index[u] == base[u] && u in store && store[u] == baseStore[u])
    && (forall u :: u in index && u !in base ==> FreshEncoding(base, store, index, raw, extract, used, u))
    && (forall u, v :: u in index && v in index && u !in base && v !in base && index[u] == index[v] ==> u == v)
  }

  /** Encoding one more uncovered folder under an unused uid keeps the extension property. */
  lemma ExtendByOne(baseStore: Store, base: Index, store: Store, index: Index, raw: Raw,
                    extract: Image -> Option<Vector>, used: set<string>, uid: string, folder: string)
    requires ExtendsByEncodings(baseStore, base, store, index, raw, extract, used)
    requires folder in raw && folder !in index.Values && extract(raw[folder].image).Some?
    requires uid !in used && uid !in index && uid !in store
    ensures ExtendsByEncodings(baseStore, base, store[uid := EncodedEntry(raw[folder], extract(raw[folder].image).value)],
                               index[uid := folder], raw, extract, used)
  {
    var store', index' := store[uid := EncodedEntry(raw[folder], extract(raw[folder].image).value)], index[uid := folder];
    forall w | w in index ensures index[w] != folder {
      assert index[w] in index.Values;
    }
    forall f | f in base.Values ensures f != folder {
      var b :| b in base && base[b] == f;
      assert index[b] == f;
    }
    forall u | u in index' && u !in base
      ensures FreshEncoding(base, store', index', raw, extract, used, u)
    {
      if u != uid {
        assert FreshEncoding(base, store, index, raw, extract, used, u);
      }
    }
  }

  /** When every folder is already covered, an extension adds nothing. */
  lemma NothingToEncode(baseStore: Store, base: Index, store: Store, index: Index, raw: Raw,
                        extract: Image -> Option<Vector>, used: set<string>)
    requires ExtendsByEncodings(baseStore, base, store, index, raw, extract, used)
    requires Consistent(baseStore, base, raw.Keys) && Consistent(store, index, raw.Keys)
    requires raw.Keys <= base.Values
    ensures store == baseStore && index == base
  {
    assert forall u :: u in index && u !in base ==> FreshEncoding(base, store, index, raw, extract, used, u);
    assert index.Keys == base.Keys;
  }

  /**
   * The first loop of `loadDatabase` gets past `uid`: its store file and
   * folder exist, and if the entry is fresh its stored user can be built.
   */
  ghost predicate StoredUserLoads(store: Store, index: Index, raw: Raw, uid: string)
    requires uid in index
  {
    && uid in store
    && index[uid] in raw
    && (ProfileEq(store[uid].userData, raw[index[uid]].profile) ==> Constructible(store[uid].userData, store[uid].encoding))
  }

  /** Re-encoding `folder` succeeds and the user it yields can be built. */
  ghost predicate ReencodedUserLoads(raw: Raw, extract: Image -> Option<Vector>, folder: string)
    requires folder in raw
  {
    && extract(raw[folder].image).Some?
    && Constructible(raw[folder].profile, NdArray(extract(raw[folder].image).value))
  }

  /** `loadDatabase` gets past the index entry `uid`. */
  ghost predicate LoadableEntry(store: Store, index: Index, raw: Raw, extract: Image -> Option<Vector>, uid: string)
    requires uid in index
  {
    && StoredUserLoads(store, index, raw, uid)
    && (Drifted(store, index, raw, uid) ==> ReencodedUserLoads(raw, extract, index[uid]))
  }

  /** `loadDatabase` gets past every index entry. */
  ghost predicate Loadable(store: Store, index: Index, raw: Raw, extract: Image -> Option<Vector>) {
    forall u :: u in index ==> LoadableEntry(store, index, raw, extract, u)
  }
}
