/**
 * The `Database` object: the encoded store, the index and the user list
 * it changes in place while reconciling them with the raw folders.
 */
module Sync {
  import opened Wrappers
  import opened Records
  import opened UserRecord
  import opened Reconcile
  import opened Reload

  class Database {
    /** `database/raw`, which the core only reads. */
    const raw: Raw
    /** The face encoder: the first encoding found in an image, if any. */
    const extract: Image -> Option<Vector>
    /** `database/encoded/users`. */
    var store: Store
    /** `metadata.pre_encoded`. */
    var index: Index
    /** `database/encoded/meta.pkl`. */
    var metaFile: MetaFile
    /** `Users`. */
    var users: seq<User>
    /** Every uid the store or the index has held; none is handed out again. */
    var issued: set<string>

    ghost predicate Valid()
      reads this
    {
      store.Keys <= issued && index.Keys <= issued
    }

    /** `__init__` up to line 96: the tables on disk and an empty `pre_encoded`. */
    constructor (raw: Raw, store: Store, metaFile: MetaFile, extract: Image -> Option<Vector>)
      ensures Valid()
      ensures this.raw == raw && this.store == store && this.metaFile == metaFile && this.extract == extract
      ensures index == map[] && users == [] && issued == store.Keys
    {
      this.raw := raw;
      this.store := store;
      this.metaFile := metaFile;
      this.extract := extract;
      index := map[];
      users := [];
      issued := store.Keys;
    }

    /** `_getMetadata`: replaces `pre_encoded` by the index `meta.pkl` holds. */
    method GetMetadata() returns (r: Outcome<Error>)
      requires Valid()
      modifies this`index, this`issued
      ensures Valid()
      ensures r.Pass? <==> !metaFile.Malformed?
      ensures metaFile.Absent? || metaFile.Empty? || metaFile.Malformed? ==> index == map[]
      ensures metaFile.Pickled? ==> index == metaFile.preEncoded
      ensures issued == old(issued) + index.Keys
    {
      index := map[];
      match LoadIndex(metaFile)
      case Success(loaded) =>
        index := loaded;
        issued := issued + loaded.Keys;
        r := Pass;
      case Failure(e) =>
        r := Fail(e);
    }

    /** `_updateMetadata`: writes the whole index to `meta.pkl`. */
    method UpdateMetadata()
      modifies this`metaFile
      ensures metaFile == Pickled(index)
      ensures LoadIndex(metaFile) == Success(index)
    {
      metaFile := Pickled(index);
    }

    /** `_addUser`: appends the user built from a pickled entry. */
    method AddUser(data: Entry) returns (r: Outcome<Error>)
      modifies this`users
      ensures r.Pass? <==> Constructible(data.userData, data.encoding)
      ensures r.Pass? ==> users == old(users) + [UserOf(data)]
      ensures r.Fail? ==> users == old(users)
    {
      var user := NewUser(data.userData, data.encoding);
      if user.Failure? {
        return Fail(user.error);
      }
      users := users + [user.value];
      r := Pass;
    }

    /** `_removeUser`: deletes the store file, then pops the index entry. */
    method RemoveUser(uid: string) returns (r: Outcome<Error>)
      requires Valid()
      modifies this`store, this`index
      ensures Valid()
      ensures r.Pass? <==> uid in old(store) && uid in old(index)
      ensures uid !in old(store) ==> r == Fail(FileNotFound(uid)) && store == old(store) && index == old(index)
      ensures uid in old(store) ==> store == old(store) - {uid}
      ensures uid in old(store) && uid !in old(index) ==> r == Fail(KeyMissing(uid)) && index == old(index)
      ensures r.Pass? ==> index == old(index) - {uid}
    {
      if uid !in store {
        return Fail(FileNotFound(uid));
      }
      store := store - {uid};
      if uid !in index {
        return Fail(KeyMissing(uid));
      }
      index := index - {uid};
      r := Pass;
    }

    /** The uid generator: a name never held by the store or the index. */
    method NewUid() returns (uid: string)
      requires Valid()
      modifies this`issued
      ensures Valid()
      ensures uid !in old(issued) && issued == old(issued) + {uid}
    {
      uid := FreshUid(issued);
      issued := issued + {uid};
    }

    /**
     * `_encodeUser`: reads the folder's `user.json`, encodes its `face.jpg`,
     * and stores the pair under a fresh uid that the index maps to the folder.
     */
    method EncodeUser(folder: string) returns (uid: string, r: Result<Entry, Error>)
      requires Valid()
      modifies this`store, this`index, this`issued
      ensures Valid()
      ensures r.Success? <==> folder in raw && extract(raw[folder].image).Some?
      ensures folder !in raw ==> r == Failure(FileNotFound(folder + "/user.json"))
      ensures folder in raw && extract(raw[folder].image).None? ==> r == Failure(NoFaceFound(folder))
      ensures r.Failure? ==> store == old(store) && index == old(index) && issued == old(issued)
      ensures r.Success? ==>
                && uid !in old(issued)
                && r.value == EncodedEntry(raw[folder], extract(raw[folder].image).value)
                && store == old(store)[uid := r.value]
                && index == old(index)[uid := folder]
                && issued == old(issued) + {uid}
    {
      uid := "";
      if folder !in raw {
        return uid, Failure(FileNotFound(folder + "/user.json"));
      }
      var userData := raw[folder].profile;
      var face := extract(raw[folder].image);
      if face.None? {
        return uid, Failure(NoFaceFound(folder));
      }
      var user := Entry(userData, NdArray(face.value));
      uid := NewUid();
      store := store[uid := user];
      index := index[uid := folder];
      r := Success(user);
    }

    /**
     * `_checkPreEncoded`, with the removal of line 135 skipped when the
     * store file is already gone: deletes the store files the index does
     * not name, then drops every index entry whose store file is missing
     * or whose folder is not in the raw listing, with its store file.
     */
    method CheckPreEncoded()
      requires Valid()
      modifies this`store, this`index
      ensures Valid()
      ensures store == CleanStore(old(store), old(index), raw.Keys)
      ensures index == CleanIndex(old(store), old(index), raw.Keys)
    {
      var currentEncodings := store.Keys;
      DeleteOrphans();
      var removeItems := DanglingEntries(currentEncodings);
      ghost var before := store;
      DropEntries(removeItems);
      assert forall u :: u in index ==> u in old(store) by {
        forall u | u in index ensures u in old(store) {
          assert u in before;
        }
      }
    }

    /** Lines 118-121: deletes every store file the index does not name. */
    method DeleteOrphans()
      modifies this`store
      ensures store == old(store) - (old(store).Keys - index.Keys)
    {
      var files := store.Keys;
      while files != {}
        invariant files <= old(store).Keys
        invariant store == old(store) - ((old(store).Keys - files) - index.Keys)
        decreases files
      {
        var file :| file in files;
        if file !in index {
          store := store - {file};
        }
        files := files - {file};
      }
    }

    /**
     * Lines 123-131: the uids to drop, those whose store file was not in
     * `listing` or whose folder is not in the raw listing; a uid failing
     * both tests is listed twice.
     */
    method DanglingEntries(listing: set<string>) returns (removeItems: seq<string>)
      ensures forall u :: u in removeItems <==> u in index && (u !in listing || index[u] !in raw)
    {
      removeItems := [];
      var pending := index.Keys;
      while pending != {}
        invariant pending <= index.Keys
        invariant forall u :: u in removeItems <==> u in index && u !in pending && (u !in listing || index[u] !in raw)
        decreases pending
      {
        var uid :| uid in pending;
        if uid !in listing {
          removeItems := removeItems + [uid];
        }
        if index[uid] !in raw {
          removeItems := removeItems + [uid];
        }
        pending := pending - {uid};
      }
    }

    /**
     * Lines 133-136: pops each listed uid still in the index and deletes
     * its store file if there is one (as written, line 135 deletes it
     * unconditionally).
     */
    method DropEntries(removeItems: seq<string>)
      requires store.Keys <= index.Keys
      modifies this`store, this`index
      ensures store.Keys <= index.Keys
      ensures forall u :: u in index <==> u in old(index) && u !in removeItems
      ensures forall u :: u in store <==> u in old(store) && u !in removeItems
      ensures forall u :: u in index ==> index[u] == old(index)[u]
      ensures forall u :: u in store ==> store[u] == old(store)[u]
    {
      var i := 0;
      while i < |removeItems|
        invariant 0 <= i <= |removeItems|
        invariant store.Keys <= index.Keys
        invariant forall u :: u in index <==> u in old(index) && u !in removeItems[..i]
        invariant forall u :: u in store <==> u in old(store) && u !in removeItems[..i]
        invariant forall u :: u in index ==> index[u] == old(index)[u]
        invariant forall u :: u in store ==> store[u] == old(store)[u]
      {
        var uid := removeItems[i];
        if uid in index {
          if uid in store {
            store := store - {uid};
          }
          index := index - {uid};
        }
        i := i + 1;
      }
      assert removeItems[..i] == removeItems;
    }

    /**
     * `encodeDatabase`: the cleanup pass, then an encoding for every raw
     * folder no index entry points to, then the index is saved. A folder
     * whose image has no face aborts the run before the save. The cleanup
     * is the corrected `CheckPreEncoded`, which does not raise on an index
     * entry whose store file is gone.
     */
    method EncodeDatabase() returns (r: Outcome<Error>)
      requires Valid()
      modifies this`store, this`index, this`metaFile, this`issued
      ensures Valid() && old(issued) <= issued
      ensures Consistent(store, index, raw.Keys)
      ensures var clean := CleanIndex(old(store), old(index), raw.Keys);
              r.Pass? <==> forall f :: f in raw && f !in clean.Values ==> extract(raw[f].image).Some?
      ensures r.Pass? ==> raw.Keys <= index.Values && metaFile == Pickled(index)
      ensures r.Fail? ==> metaFile == old(metaFile)
      ensures ExtendsByEncodings(CleanStore(old(store), old(index), raw.Keys), CleanIndex(old(store), old(index), raw.Keys),
                                 store, index, raw, extract, old(issued))
      // a second run with no external change does nothing but save
      ensures Consistent(old(store), old(index), raw.Keys) && raw.Keys <= old(index).Values ==>
                r.Pass? && store == old(store) && index == old(index)
    {
      CheckPreEncoded();
      CleanupConsistent(old(store), old(index), raw.Keys);
      r := EncodeMissing();
      if r.Pass? {
        UpdateMetadata();
      }
      if Consistent(old(store), old(index), raw.Keys) && raw.Keys <= old(index).Values {
        CleanupIdentityWhenConsistent(old(store), old(index), raw.Keys);
        NothingToEncode(old(store), old(index), store, index, raw, extract, old(issued));
      }
    }

    /** Lines 183-185: encodes each raw folder that no index entry points to. */
    method EncodeMissing() returns (r: Outcome<Error>)
      requires Valid() && Consistent(store, index, raw.Keys)
      modifies this`store, this`index, this`issued
      ensures Valid() && Consistent(store, index, raw.Keys) && old(issued) <= issued
      ensures r.Pass? <==> forall f :: f in raw && f !in old(index).Values ==> extract(raw[f].image).Some?
      ensures r.Pass? ==> raw.Keys <= index.Values
      ensures ExtendsByEncodings(old(store), old(index), store, index, raw, extract, old(issued))
    {
      var folders := raw.Keys;
      while folders != {}
        invariant folders <= raw.Keys
        invariant Valid() && Consistent(store, index, raw.Keys)
        invariant old(issued) <= issued
        invariant ExtendsByEncodings(old(store), old(index), store, index, raw, extract, old(issued))
        invariant forall u :: u in index && u !in old(index) ==> index[u] !in folders
        invariant forall f :: f in raw && f !in folders ==> f in index.Values
        invariant forall f :: f in raw && f !in folders && f !in old(index).Values ==> extract(raw[f].image).Some?
        decreases folders
      {
        var folder :| folder in folders;
        if folder !in index.Values {
          ghost var store0, index0 := store, index;
          var uid, e := EncodeUser(folder);
          if e.Failure? {
            return Fail(e.error);
          }
          ExtendByOne(old(store), old(index), store0, index0, raw, extract, old(issued), uid, folder);
          InsertedFolder(index0, uid, folder);
        }
        folders := folders - {folder};
      }
      r := Pass;
    }

    /**
     * `loadDatabase`: scans the index in `order`, building the stored user
     * of every fresh entry and listing the drifted ones, then retires each
     * listed entry and re-encodes its folder under the uid `renewed[k]`,
     * then saves the index. Any exception aborts it before the save.
     */
    method LoadDatabase() returns (r: Outcome<Error>, ghost order: seq<string>, ghost renewed: seq<string>)
      requires Valid()
      modifies this`store, this`index, this`metaFile, this`users, this`issued
      ensures Valid() && old(issued) <= issued
      ensures Enumerates(order, old(index))
      ensures r.Pass? <==> Loadable(old(store), old(index), raw, extract)
      ensures r.Fail? ==> metaFile == old(metaFile)
      ensures old(users) <= users
      ensures r.Pass? ==>
                var modified := ModifiedUsers(old(store), old(index), raw, order);
                && ScanPasses(old(store), old(index), raw, order) && Encodable(raw, extract, modified)
                && |renewed| == |modified| && Unissued(renewed, old(issued))
                && index == SwapIndex(old(index), modified, renewed)
                && store == SwapStore(old(store), raw, extract, modified, renewed)
                && users == old(users) + ScannedUsers(old(store), old(index), raw, order) + ReencodedUsers(raw, extract, modified)
                && metaFile == Pickled(index)
      // one user per index entry, the same encoded folders, and afterwards no entry is modified
      ensures r.Pass? ==> |users| == |old(users)| + |old(index)|
      ensures r.Pass? ==> index.Values == old(index).Values
      ensures r.Pass? ==> forall u :: u in index ==> IsModifiedUser(store, index, raw, u) == Success(false)
      ensures r.Pass? && Consistent(old(store), old(index), raw.Keys) ==> Consistent(store, index, raw.Keys)
    {
      var items := IterationOrder(index);
      order, renewed := items, [];
      var modified;
      r, modified := ScanIndex(items);
      if r.Fail? {
        LoadableIff(store, index, raw, extract, order);
        return;
      }
      ModifiedUsersDistinct(store, index, raw, order);
      r, renewed := ReplaceModified(modified);
      LoadableIff(old(store), old(index), raw, extract, order);
      if r.Fail? {
        return;
      }
      UpdateMetadata();
      LoadCount(old(store), old(index), raw, order);
      LoadSettles(old(store), old(index), raw, extract, order, renewed, old(issued));
    }

    /**
     * Lines 192-201: for each uid of `order`, opens its store file, runs
     * the drift test, and either appends the stored user or lists the
     * entry in `modified_users`.
     */
    method ScanIndex(order: seq<string>) returns (r: Outcome<Error>, modified: seq<(string, string)>)
      requires forall k :: 0 <= k < |order| ==> order[k] in index
      modifies this`users
      ensures r.Pass? <==> ScanPasses(store, index, raw, order)
      ensures old(users) <= users
      ensures r.Pass? ==> modified == ModifiedUsers(store, index, raw, order)
      ensures r.Pass? ==> users == old(users) + ScannedUsers(store, index, raw, order)
    {
      r, modified := Pass, [];
      var i := 0;
      while i < |order|
        invariant 0 <= i <= |order| && r.Pass?
        invariant ScanPasses(store, index, raw, order[..i])
        invariant modified == ModifiedUsers(store, index, raw, order[..i])
        invariant users == old(users) + ScannedUsers(store, index, raw, order[..i])
      {
        var isModified;
        r, isModified := ScanEntry(order[i]);
        if r.Fail? {
          return;
        }
        ScanStep(store, index, raw, order, i);
        if isModified {
          modified := modified + [(order[i], index[order[i]])];
        }
        i := i + 1;
      }
      assert order[..i] == order;
    }

    /**
     * Lines 193-201 for one index entry: opens its store file, runs the
     * drift test, and appends the stored user unless it has drifted.
     */
    method ScanEntry(uid: string) returns (r: Outcome<Error>, isModified: bool)
      requires uid in index
      modifies this`users
      ensures r.Pass? <==> StoredUserLoads(store, index, raw, uid)
      ensures r.Pass? ==> isModified == Drifted(store, index, raw, uid)
      ensures r.Pass? && !isModified ==> store[uid].encoding.NdArray? && users == old(users) + [UserOf(store[uid])]
      ensures r.Fail? || isModified ==> users == old(users)
    {
      isModified := false;
      if uid !in store {
        return Fail(FileNotFound(uid)), isModified;
      }
      var data := store[uid];
      var modified := IsModifiedUser(store, index, raw, uid);
      if modified.Failure? {
        return Fail(modified.error), isModified;
      }
      isModified := modified.value;
      if !isModified {
        r := AddUser(data);
      } else {
        r := Pass;
      }
    }

    /**
     * Lines 204-206 for one listed entry: removes it, re-encodes `folder`
     * under a new uid, and appends the re-encoded user. The removal cannot
     * fail here, as the entry and its store file are present.
     */
    method ReplaceEntry(uid: string, folder: string) returns (r: Outcome<Error>, newUid: string)
      requires Valid() && uid in index && uid in store
      modifies this`store, this`index, this`issued, this`users
      ensures Valid() && old(issued) <= issued
      ensures r.Pass? <==> folder in raw && ReencodedUserLoads(raw, extract, folder)
      ensures r.Fail? ==> users == old(users)
      ensures r.Pass? ==>
                && newUid !in old(issued) && newUid in issued
                && index == (old(index) - {uid})[newUid := folder]
                && store == (old(store) - {uid})[newUid := Reencoding(raw, extract, folder)]
                && users == old(users) + [UserOf(Reencoding(raw, extract, folder))]
    {
      var removed := RemoveUser(uid);
      assert removed.Pass?;
      var data;
      newUid, data := EncodeUser(folder);
      if data.Failure? {
        return Fail(data.error), newUid;
      }
      r := AddUser(data.value);
    }

    /**
     * Lines 203-206: for each listed entry, removes it, re-encodes its
     * folder under a new uid, and appends the re-encoded user.
     * `renewed` holds the new uids in list order.
     */
    method ReplaceModified(modified: seq<(string, string)>) returns (r: Outcome<Error>, ghost renewed: seq<string>)
      requires Valid()
      requires forall k :: 0 <= k < |modified| ==> modified[k].0 in index && modified[k].0 in store
      requires DistinctUids(modified)
      modifies this`store, this`index, this`issued, this`users
      ensures Valid() && old(issued) <= issued
      ensures r.Pass? <==> Reencodable(raw, extract, modified)
      ensures old(users) <= users
      ensures r.Pass? ==> |renewed| == |modified| && Unissued(renewed, old(issued))
      ensures r.Pass? ==> index == SwapIndex(old(index), modified, renewed)
      ensures r.Pass? ==> store == SwapStore(old(store), raw, extract, modified, renewed)
      ensures r.Pass? ==> users == old(users) + ReencodedUsers(raw, extract, modified)
    {
      r, renewed := Pass, [];
      ReplaceStart(store, index, users, raw, extract, modified);
      var i := 0;
      while i < |modified|
        invariant 0 <= i <= |modified| && r.Pass? && |renewed| == i
        invariant Valid() && old(issued) <= issued
        invariant Unissued(renewed, old(issued)) && forall k :: 0 <= k < i ==> renewed[k] in issued
        invariant ReplacedPrefix(old(store), old(index), old(users), raw, extract, modified, renewed, store, index, users)
        invariant forall k :: i <= k < |modified| ==> modified[k].0 in index && modified[k].0 in store
      {
        var newUid;
        ghost var store0, index0, users0 := store, index, users;
        r, newUid := ReplaceEntry(modified[i].0, modified[i].1);
        if r.Fail? {
          assert !(modified[i].1 in raw && ReencodedUserLoads(raw, extract, modified[i].1));
          return;
        }
        ReplaceStep(old(store), old(index), old(users), raw, extract, modified, renewed, store0, index0, users0, newUid);
        renewed := renewed + [newUid];
        i := i + 1;
      }
      ReplaceEnd(old(store), old(index), old(users), raw, extract, modified, renewed, store, index, users);
    }
  }
}
