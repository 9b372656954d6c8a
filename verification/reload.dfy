/**
 * The two passes of `loadDatabase`, stated on values: the scan of the
 * index in its iteration order, which builds the stored users and lists
 * the drifted entries, and the replacement of each drifted entry by a
 * fresh encoding of its folder. The class in module Sync performs them
 * in place; the lemmas here say what the tables look like afterwards.
 */
module Reload {
  import opened Wrappers
  import opened Records
  import opened UserRecord
  import opened Reconcile

  /** No name occurs twice in `s`. */
  ghost predicate Distinct(s: seq<string>) {
    forall j, k :: 0 <= j < k < |s| ==> s[j] != s[k]
  }

  /** `order` lists every uid of `index` exactly once: an iteration order of `pre_encoded`. */
  ghost predicate Enumerates(order: seq<string>, index: Index) {
    && (forall k :: 0 <= k < |order| ==> order[k] in index)
    && (forall u :: u in index ==> u in order)
    && Distinct(order)
  }

  /** `names` picks distinct names, none of them in `used`. */
  ghost predicate Unissued(names: seq<string>, used: set<string>) {
    Distinct(names) && forall k :: 0 <= k < |names| ==> names[k] !in used
  }

  /** `pre_encoded.items()`: the uids of the index, in some order. */
  method IterationOrder(index: Index) returns (order: seq<string>)
    ensures Enumerates(order, index)
  {
    order := [];
    var rest := index.Keys;
    while rest != {}
      invariant rest <= index.Keys
      invariant forall k :: 0 <= k < |order| ==> order[k] in index && order[k] !in rest
      invariant forall u :: u in index && u !in rest ==> u in order
      invariant Distinct(order)
      decreases rest
    {
      var u :| u in rest;
      order := order + [u];
      rest := rest - {u};
    }
  }

  /** A distinct listing of a set is as long as the set is large. */
  lemma {:induction false} ListingCardinality(order: seq<string>, names: set<string>)
    requires Distinct(order)
    requires forall k :: 0 <= k < |order| ==> order[k] in names
    requires forall u :: u in names ==> u in order
    ensures |order| == |names|
  {
    if order == [] {
      assert names == {};
    } else {
      var n := |order| - 1;
      var init := order[..n];
      forall u | u in names - {order[n]} ensures u in init {
        var j :| 0 <= j < |order| && order[j] == u;
        assert j != n;
        assert init[j] == u;
      }
      ListingCardinality(init, names - {order[n]});
    }
  }

  /** The scan gets through every uid of `order`. */
  ghost predicate ScanPasses(store: Store, index: Index, raw: Raw, order: seq<string>) {
    forall k :: 0 <= k < |order| ==> order[k] in index && StoredUserLoads(store, index, raw, order[k])
  }

  /** `modified_users` after scanning `order`: each drifted uid with its folder, in scan order. */
  ghost function ModifiedUsers(store: Store, index: Index, raw: Raw, order: seq<string>): (r: seq<(string, string)>)
    requires forall k :: 0 <= k < |order| ==> order[k] in index
    ensures |r| <= |order|
    ensures forall k :: 0 <= k < |r| ==>
              r[k].0 in order && Drifted(store, index, raw, r[k].0) && r[k].1 == index[r[k].0]
    ensures ListsEntries(store, index, r)
  {
    if order == [] then []
    else
      var n := |order| - 1;
      var rest := ModifiedUsers(store, index, raw, order[..n]);
      if Drifted(store, index, raw, order[n]) then rest + [(order[n], index[order[n]])] else rest
  }

  /** Each listed pair is an index entry, with its store file, and the folder the index maps it to. */
  ghost predicate ListsEntries(store: Store, index: Index, modified: seq<(string, string)>) {
    forall k :: 0 <= k < |modified| ==>
      modified[k].0 in index && modified[k].0 in store && modified[k].1 == index[modified[k].0]
  }

  /** The uids of a `modified_users` list. */
  ghost function Uids(modified: seq<(string, string)>): set<string> {
    set k | 0 <= k < |modified| :: modified[k].0
  }

  /** No uid occurs twice in a `modified_users` list. */
  ghost predicate DistinctUids(modified: seq<(string, string)>) {
    forall j, k :: 0 <= j < k < |modified| ==> modified[j].0 != modified[k].0
  }

  /** The uids of a list are those of all but its last pair, plus the last one. */
  lemma UidsLast(modified: seq<(string, string)>)
    requires modified != []
    ensures Uids(modified) == Uids(modified[..|modified| - 1]) + {modified[|modified| - 1].0}
  {
    var n := |modified| - 1;
    forall u | u in Uids(modified) ensures u in Uids(modified[..n]) + {modified[n].0} {
      var k :| 0 <= k < |modified| && modified[k].0 == u;
      if k < n {
        assert modified[..n][k].0 == u;
      }
    }
    forall u | u in Uids(modified[..n]) ensures u in Uids(modified) {
      var k :| 0 <= k < n && modified[..n][k].0 == u;
      assert modified[k].0 == u;
    }
  }

  /** The scan lists exactly the drifted uids of `order`. */
  lemma {:induction false} ModifiedUsersComplete(store: Store, index: Index, raw: Raw, order: seq<string>)
    requires forall k :: 0 <= k < |order| ==> order[k] in index
    ensures forall u :: u in Uids(ModifiedUsers(store, index, raw, order)) <==> u in order && Drifted(store, index, raw, u)
  {
    var m := ModifiedUsers(store, index, raw, order);
    if order != [] {
      var n := |order| - 1;
      var rest := ModifiedUsers(store, index, raw, order[..n]);
      ModifiedUsersComplete(store, index, raw, order[..n]);
      assert order == order[..n] + [order[n]];
      forall u | u in Uids(rest) ensures u in Uids(m) {
        var k :| 0 <= k < |rest| && rest[k].0 == u;
        assert m[k] == rest[k];
      }
      if Drifted(store, index, raw, order[n]) {
        assert m[|rest|].0 == order[n];
      }
      forall u | u in Uids(m) ensures u in Uids(rest) || u == order[n] {
        var k :| 0 <= k < |m| && m[k].0 == u;
        if k < |rest| {
          assert rest[k].0 == u;
        }
      }
    }
  }

  /** Scanning distinct uids lists each drifted uid once. */
  lemma {:induction false} ModifiedUsersDistinct(store: Store, index: Index, raw: Raw, order: seq<string>)
    requires forall k :: 0 <= k < |order| ==> order[k] in index
    requires Distinct(order)
    ensures DistinctUids(ModifiedUsers(store, index, raw, order))
  {
    if order != [] {
      var n := |order| - 1;
      var rest := ModifiedUsers(store, index, raw, order[..n]);
      ModifiedUsersDistinct(store, index, raw, order[..n]);
      forall k | 0 <= k < |rest| ensures rest[k].0 != order[n] {
        var j :| 0 <= j < n && order[..n][j] == rest[k].0;
      }
      var m := ModifiedUsers(store, index, raw, order);
      forall j, k | 0 <= j < k < |m| ensures m[j].0 != m[k].0 {
        assert m[j] == rest[j];
        if k < |rest| {
          assert m[k] == rest[k];
        } else {
          assert m[k].0 == order[n];
        }
      }
    }
  }

  /** The users the scan appends: the stored user of each fresh uid of `order`, in scan order. */
  ghost function ScannedUsers(store: Store, index: Index, raw: Raw, order: seq<string>): (r: seq<User>)
    requires ScanPasses(store, index, raw, order)
    ensures |r| + |ModifiedUsers(store, index, raw, order)| == |order|
  {
    if order == [] then []
    else
      var n := |order| - 1;
      var rest := ScannedUsers(store, index, raw, order[..n]);
      if Drifted(store, index, raw, order[n]) then rest else rest + [UserOf(store[order[n]])]
  }

  /** Scanning one more uid extends the list of drifted entries or the scanned users by one. */
  lemma ScanStep(store: Store, index: Index, raw: Raw, order: seq<string>, i: nat)
    requires i < |order| && ScanPasses(store, index, raw, order[..i])
    requires order[i] in index && StoredUserLoads(store, index, raw, order[i])
    ensures ScanPasses(store, index, raw, order[..i + 1])
    ensures Drifted(store, index, raw, order[i]) ==>
              && ModifiedUsers(store, index, raw, order[..i + 1])
                 == ModifiedUsers(store, index, raw, order[..i]) + [(order[i], index[order[i]])]
              && ScannedUsers(store, index, raw, order[..i + 1]) == ScannedUsers(store, index, raw, order[..i])
    ensures !Drifted(store, index, raw, order[i]) ==>
              && store[order[i]].encoding.NdArray?
              && ModifiedUsers(store, index, raw, order[..i + 1]) == ModifiedUsers(store, index, raw, order[..i])
              && ScannedUsers(store, index, raw, order[..i + 1])
                 == ScannedUsers(store, index, raw, order[..i]) + [UserOf(store[order[i]])]
  {
    assert order[..i + 1][..i] == order[..i];
  }

  /** Every listed folder can be encoded. */
  ghost predicate Encodable(raw: Raw, extract: Image -> Option<Vector>, modified: seq<(string, string)>) {
    forall k :: 0 <= k < |modified| ==> modified[k].1 in raw && extract(raw[modified[k].1].image).Some?
  }

  /** The second pass gets through every listed folder. */
  ghost predicate Reencodable(raw: Raw, extract: Image -> Option<Vector>, modified: seq<(string, string)>) {
    forall k :: 0 <= k < |modified| ==> modified[k].1 in raw && ReencodedUserLoads(raw, extract, modified[k].1)
  }

  /** The entry `_encodeUser` writes for `folder`. */
  ghost function Reencoding(raw: Raw, extract: Image -> Option<Vector>, folder: string): Entry
    requires folder in raw && extract(raw[folder].image).Some?
  {
    EncodedEntry(raw[folder], extract(raw[folder].image).value)
  }

  /** The index after the second pass: each listed uid is retired and its folder indexed under `renewed[k]`. */
  ghost function SwapIndex(index: Index, modified: seq<(string, string)>, renewed: seq<string>): Index
    requires |renewed| == |modified|
  {
    if modified == [] then index
    else
      var n := |modified| - 1;
      (SwapIndex(index, modified[..n], renewed[..n]) - {modified[n].0})[renewed[n] := modified[n].1]
  }

  /** The store after the second pass: each listed uid's file is removed and a fresh encoding written under `renewed[k]`. */
  ghost function SwapStore(store: Store, raw: Raw, extract: Image -> Option<Vector>,
                           modified: seq<(string, string)>, renewed: seq<string>): Store
    requires |renewed| == |modified| && Encodable(raw, extract, modified)
  {
    if modified == [] then store
    else
      var n := |modified| - 1;
      (SwapStore(store, raw, extract, modified[..n], renewed[..n]) - {modified[n].0})
        [renewed[n] := Reencoding(raw, extract, modified[n].1)]
  }

  /** The users the second pass appends, in list order. */
  ghost function ReencodedUsers(raw: Raw, extract: Image -> Option<Vector>, modified: seq<(string, string)>): (r: seq<User>)
    requires Encodable(raw, extract, modified)
    ensures |r| == |modified|
  {
    if modified == [] then []
    else
      var n := |modified| - 1;
      ReencodedUsers(raw, extract, modified[..n]) + [UserOf(Reencoding(raw, extract, modified[n].1))]
  }

  /**
   * The tables once the second pass has replaced the first `|renewed|`
   * listed entries, starting from `store0`, `index0` and `users0`.
   */
  ghost predicate ReplacedPrefix(store0: Store, index0: Index, users0: seq<User>, raw: Raw, extract: Image -> Option<Vector>,
                                 modified: seq<(string, string)>, renewed: seq<string>,
                                 store: Store, index: Index, users: seq<User>)
  {
    && |renewed| <= |modified|
    && Reencodable(raw, extract, modified[..|renewed|])
    && index == SwapIndex(index0, modified[..|renewed|], renewed)
    && store == SwapStore(store0, raw, extract, modified[..|renewed|], renewed)
    && users == users0 + ReencodedUsers(raw, extract, modified[..|renewed|])
  }

  /** Before the second pass nothing is replaced. */
  lemma ReplaceStart(store: Store, index: Index, users: seq<User>, raw: Raw, extract: Image -> Option<Vector>,
                     modified: seq<(string, string)>)
    ensures ReplacedPrefix(store, index, users, raw, extract, modified, [], store, index, users)
  {
    assert modified[..0] == [];
  }

  /** Replacing one more listed entry extends each table of the second pass by one step. */
  lemma ReplaceStep(store0: Store, index0: Index, users0: seq<User>, raw: Raw, extract: Image -> Option<Vector>,
                    modified: seq<(string, string)>, renewed: seq<string>,
                    store: Store, index: Index, users: seq<User>, uid: string)
    requires ReplacedPrefix(store0, index0, users0, raw, extract, modified, renewed, store, index, users)
    requires |renewed| < |modified|
    requires modified[|renewed|].1 in raw && ReencodedUserLoads(raw, extract, modified[|renewed|].1)
    ensures var folder := modified[|renewed|].1;
            ReplacedPrefix(store0, index0, users0, raw, extract, modified, renewed + [uid],
                           (store - {modified[|renewed|].0})[uid := Reencoding(raw, extract, folder)],
                           (index - {modified[|renewed|].0})[uid := folder],
                           users + [UserOf(Reencoding(raw, extract, folder))])
  {
    var i := |renewed|;
    assert modified[..i + 1][..i] == modified[..i];
    assert (renewed + [uid])[..i] == renewed;
  }

  /** Once every listed entry is replaced, the prefix is the whole list. */
  lemma ReplaceEnd(store0: Store, index0: Index, users0: seq<User>, raw: Raw, extract: Image -> Option<Vector>,
                   modified: seq<(string, string)>, renewed: seq<string>,
                   store: Store, index: Index, users: seq<User>)
    requires ReplacedPrefix(store0, index0, users0, raw, extract, modified, renewed, store, index, users)
    requires |renewed| == |modified|
    ensures Reencodable(raw, extract, modified)
    ensures index == SwapIndex(index0, modified, renewed)
    ensures store == SwapStore(store0, raw, extract, modified, renewed)
    ensures users == users0 + ReencodedUsers(raw, extract, modified)
  {
    assert modified[..|renewed|] == modified;
  }

  /** After the second pass the index holds `u` as before, unless it was listed, or holds it as a new uid. */
  lemma {:induction false} SwapIndexAt(index: Index, modified: seq<(string, string)>, renewed: seq<string>, u: string)
    requires |renewed| == |modified|
    requires forall k :: 0 <= k < |modified| ==> modified[k].0 in index
    requires Unissued(renewed, index.Keys)
    ensures u in SwapIndex(index, modified, renewed) <==> (u in index && u !in Uids(modified)) || u in renewed
    ensures u in index && u !in Uids(modified) ==> SwapIndex(index, modified, renewed)[u] == index[u]
  {
    if modified != [] {
      var n := |modified| - 1;
      SwapIndexAt(index, modified[..n], renewed[..n], u);
      UidsLast(modified);
      assert renewed == renewed[..n] + [renewed[n]];
    }
  }

  /** After the second pass the index maps the `k`-th new uid to the `k`-th listed folder. */
  lemma {:induction false} SwapIndexRenewed(index: Index, modified: seq<(string, string)>, renewed: seq<string>, k: nat)
    requires |renewed| == |modified| && k < |renewed|
    requires forall j :: 0 <= j < |modified| ==> modified[j].0 in index
    requires Unissued(renewed, index.Keys)
    ensures renewed[k] in SwapIndex(index, modified, renewed)
    ensures SwapIndex(index, modified, renewed)[renewed[k]] == modified[k].1
  {
    var n := |modified| - 1;
    if k < n {
      SwapIndexRenewed(index, modified[..n], renewed[..n], k);
      assert modified[n].0 in index;
    }
  }

  /**
   * After the second pass the index holds the entries it did not list,
   * unchanged, and each listed folder under its new uid, and nothing else.
   */
  lemma SwapIndexLookup(index: Index, modified: seq<(string, string)>, renewed: seq<string>)
    requires |renewed| == |modified|
    requires forall k :: 0 <= k < |modified| ==> modified[k].0 in index
    requires Unissued(renewed, index.Keys)
    ensures var index' := SwapIndex(index, modified, renewed);
            && (forall u :: u in index' <==> (u in index && u !in Uids(modified)) || u in renewed)
            && (forall u :: u in index && u !in Uids(modified) ==> index'[u] == index[u])
            && (forall k :: 0 <= k < |renewed| ==> index'[renewed[k]] == modified[k].1)
  {
    var index' := SwapIndex(index, modified, renewed);
    forall u
      ensures u in index' <==> (u in index && u !in Uids(modified)) || u in renewed
      ensures u in index && u !in Uids(modified) ==> index'[u] == index[u]
    {
      SwapIndexAt(index, modified, renewed, u);
    }
    forall k | 0 <= k < |renewed| ensures renewed[k] in index' && index'[renewed[k]] == modified[k].1 {
      SwapIndexRenewed(index, modified, renewed, k);
    }
  }

  /** The store after the second pass holds `u` as before, unless it was listed, or holds it as a new uid. */
  lemma {:induction false} SwapStoreAt(store: Store, raw: Raw, extract: Image -> Option<Vector>,
                                       modified: seq<(string, string)>, renewed: seq<string>, u: string)
    requires |renewed| == |modified| && Encodable(raw, extract, modified)
    requires forall k :: 0 <= k < |modified| ==> modified[k].0 in store
    requires Unissued(renewed, store.Keys)
    ensures u in SwapStore(store, raw, extract, modified, renewed) <==> (u in store && u !in Uids(modified)) || u in renewed
    ensures u in store && u !in Uids(modified) ==> SwapStore(store, raw, extract, modified, renewed)[u] == store[u]
  {
    if modified != [] {
      var n := |modified| - 1;
      SwapStoreAt(store, raw, extract, modified[..n], renewed[..n], u);
      UidsLast(modified);
      assert renewed == renewed[..n] + [renewed[n]];
    }
  }

  /** The store after the second pass holds the re-encoding of the `k`-th listed folder under the `k`-th new uid. */
  lemma {:induction false} SwapStoreRenewed(store: Store, raw: Raw, extract: Image -> Option<Vector>,
                                            modified: seq<(string, string)>, renewed: seq<string>, k: nat)
    requires |renewed| == |modified| && k < |renewed| && Encodable(raw, extract, modified)
    requires forall j :: 0 <= j < |modified| ==> modified[j].0 in store
    requires Unissued(renewed, store.Keys)
    ensures renewed[k] in SwapStore(store, raw, extract, modified, renewed)
    ensures SwapStore(store, raw, extract, modified, renewed)[renewed[k]] == Reencoding(raw, extract, modified[k].1)
  {
    var n := |modified| - 1;
    if k < n {
      SwapStoreRenewed(store, raw, extract, modified[..n], renewed[..n], k);
      assert modified[n].0 in store;
    }
  }

  /** The same for the store, whose new files hold the re-encodings. */
  lemma SwapStoreLookup(store: Store, raw: Raw, extract: Image -> Option<Vector>,
                        modified: seq<(string, string)>, renewed: seq<string>)
    requires |renewed| == |modified| && Encodable(raw, extract, modified)
    requires forall k :: 0 <= k < |modified| ==> modified[k].0 in store
    requires Unissued(renewed, store.Keys)
    ensures var store' := SwapStore(store, raw, extract, modified, renewed);
            && (forall u :: u in store' <==> (u in store && u !in Uids(modified)) || u in renewed)
            && (forall u :: u in store && u !in Uids(modified) ==> store'[u] == store[u])
            && (forall k :: 0 <= k < |renewed| ==> store'[renewed[k]] == Reencoding(raw, extract, modified[k].1))
  {
    var store' := SwapStore(store, raw, extract, modified, renewed);
    forall u
      ensures u in store' <==> (u in store && u !in Uids(modified)) || u in renewed
      ensures u in store && u !in Uids(modified) ==> store'[u] == store[u]
    {
      SwapStoreAt(store, raw, extract, modified, renewed, u);
    }
    forall k | 0 <= k < |renewed| ensures renewed[k] in store' && store'[renewed[k]] == Reencoding(raw, extract, modified[k].1) {
      SwapStoreRenewed(store, raw, extract, modified, renewed, k);
    }
  }

  /**
   * `loadDatabase` gets through exactly when the scan gets through and
   * every folder it lists can be re-encoded into a user.
   */
  lemma LoadableIff(store: Store, index: Index, raw: Raw, extract: Image -> Option<Vector>, order: seq<string>)
    requires Enumerates(order, index)
    ensures Loadable(store, index, raw, extract) <==>
            ScanPasses(store, index, raw, order) && Reencodable(raw, extract, ModifiedUsers(store, index, raw, order))
  {
    if Loadable(store, index, raw, extract) {
      LoadableScans(store, index, raw, extract, order);
    }
    if ScanPasses(store, index, raw, order) && Reencodable(raw, extract, ModifiedUsers(store, index, raw, order)) {
      ScanLoads(store, index, raw, extract, order);
    }
  }

  /** If every entry loads, the scan gets through and every listed folder re-encodes. */
  lemma LoadableScans(store: Store, index: Index, raw: Raw, extract: Image -> Option<Vector>, order: seq<string>)
    requires Enumerates(order, index) && Loadable(store, index, raw, extract)
    ensures ScanPasses(store, index, raw, order) && Reencodable(raw, extract, ModifiedUsers(store, index, raw, order))
  {
    var m := ModifiedUsers(store, index, raw, order);
    forall k | 0 <= k < |m| ensures ReencodedUserLoads(raw, extract, m[k].1) {
      assert LoadableEntry(store, index, raw, extract, m[k].0);
    }
  }

  /** If the scan gets through and every listed folder re-encodes, every entry loads. */
  lemma ScanLoads(store: Store, index: Index, raw: Raw, extract: Image -> Option<Vector>, order: seq<string>)
    requires Enumerates(order, index) && ScanPasses(store, index, raw, order)
    requires Reencodable(raw, extract, ModifiedUsers(store, index, raw, order))
    ensures Loadable(store, index, raw, extract)
  {
    var m := ModifiedUsers(store, index, raw, order);
    ModifiedUsersComplete(store, index, raw, order);
    forall u | u in index ensures LoadableEntry(store, index, raw, extract, u) {
      var j :| 0 <= j < |order| && order[j] == u;
      if Drifted(store, index, raw, u) {
        assert u in Uids(m);
        var k :| 0 <= k < |m| && m[k].0 == u;
      }
    }
  }

  /** The scan appends one user or lists one entry per index entry. */
  lemma LoadCount(store: Store, index: Index, raw: Raw, order: seq<string>)
    requires Enumerates(order, index) && ScanPasses(store, index, raw, order)
    ensures |ScannedUsers(store, index, raw, order)| + |ModifiedUsers(store, index, raw, order)| == |index|
  {
    ListingCardinality(order, index.Keys);
  }

  /** Re-indexing each listed folder under a new uid keeps the set of encoded folders. */
  lemma SwapKeepsFolders(store: Store, index: Index, modified: seq<(string, string)>, renewed: seq<string>)
    requires |renewed| == |modified| && ListsEntries(store, index, modified)
    requires Unissued(renewed, index.Keys)
    ensures SwapIndex(index, modified, renewed).Values == index.Values
  {
    SwapIndexLookup(index, modified, renewed);
    var index' := SwapIndex(index, modified, renewed);
    forall v | v in index.Values ensures v in index'.Values {
      var u :| u in index && index[u] == v;
      if u in Uids(modified) {
        var k :| 0 <= k < |modified| && modified[k].0 == u;
        assert index'[renewed[k]] == v;
      } else {
        assert index'[u] == v;
      }
    }
    forall v | v in index'.Values ensures v in index.Values {
      var u :| u in index' && index'[u] == v;
      if u in renewed {
        var k :| 0 <= k < |renewed| && renewed[k] == u;
        assert index[modified[k].0] == v;
      } else {
        assert index[u] == v;
      }
    }
  }

  /**
   * After a successful `loadDatabase` no index entry is reported modified:
   * kept entries had not drifted, and re-encoded ones match their folder.
   */
  lemma NoneModified(store: Store, index: Index, raw: Raw, extract: Image -> Option<Vector>,
                     order: seq<string>, renewed: seq<string>, used: set<string>)
    requires Enumerates(order, index) && ScanPasses(store, index, raw, order)
    requires Encodable(raw, extract, ModifiedUsers(store, index, raw, order))
    requires |renewed| == |ModifiedUsers(store, index, raw, order)|
    requires store.Keys <= used && index.Keys <= used && Unissued(renewed, used)
    ensures var m := ModifiedUsers(store, index, raw, order);
            var index', store' := SwapIndex(index, m, renewed), SwapStore(store, raw, extract, m, renewed);
            forall u :: u in index' ==> IsModifiedUser(store', index', raw, u) == Success(false)
  {
    assert Unissued(renewed, store.Keys) && Unissued(renewed, index.Keys);
    var m := ModifiedUsers(store, index, raw, order);
    ModifiedUsersComplete(store, index, raw, order);
    SwapIndexLookup(index, m, renewed);
    SwapStoreLookup(store, raw, extract, m, renewed);
    var index', store' := SwapIndex(index, m, renewed), SwapStore(store, raw, extract, m, renewed);
    forall u | u in index' ensures IsModifiedUser(store', index', raw, u) == Success(false) {
      if u in renewed {
        var k :| 0 <= k < |renewed| && renewed[k] == u;
        assert index'[u] == m[k].1 && store'[u] == Reencoding(raw, extract, m[k].1);
        ProfileEqReflexive(raw[m[k].1].profile);
      } else {
        var j :| 0 <= j < |order| && order[j] == u;
        assert StoredUserLoads(store, index, raw, u);
      }
    }
  }

  /** The second pass keeps consistent tables consistent. */
  lemma SwapKeepsConsistent(store: Store, index: Index, raw: Raw, extract: Image -> Option<Vector>,
                            modified: seq<(string, string)>, renewed: seq<string>, used: set<string>)
    requires |renewed| == |modified| && Encodable(raw, extract, modified) && ListsEntries(store, index, modified)
    requires store.Keys <= used && index.Keys <= used && Unissued(renewed, used)
    ensures SwapIndex(index, modified, renewed).Values == index.Values
    ensures Consistent(store, index, raw.Keys) ==>
              Consistent(SwapStore(store, raw, extract, modified, renewed), SwapIndex(index, modified, renewed), raw.Keys)
  {
    assert Unissued(renewed, store.Keys) && Unissued(renewed, index.Keys);
    SwapIndexLookup(index, modified, renewed);
    SwapStoreLookup(store, raw, extract, modified, renewed);
    SwapKeepsFolders(store, index, modified, renewed);
  }

  /**
   * What a successful `loadDatabase` leaves behind: the same set of
   * encoded folders, no entry reported modified, and consistent tables if
   * they were consistent before.
   */
  lemma LoadSettles(store: Store, index: Index, raw: Raw, extract: Image -> Option<Vector>,
                    order: seq<string>, renewed: seq<string>, used: set<string>)
    requires Enumerates(order, index) && ScanPasses(store, index, raw, order)
    requires Encodable(raw, extract, ModifiedUsers(store, index, raw, order))
    requires |renewed| == |ModifiedUsers(store, index, raw, order)|
    requires store.Keys <= used && index.Keys <= used && Unissued(renewed, used)
    ensures var m := ModifiedUsers(store, index, raw, order);
            var index', store' := SwapIndex(index, m, renewed), SwapStore(store, raw, extract, m, renewed);
            && index'.Values == index.Values
            && (forall u :: u in index' ==> IsModifiedUser(store', index', raw, u) == Success(false))
            && (Consistent(store, index, raw.Keys) ==> Consistent(store', index', raw.Keys))
  {
    NoneModified(store, index, raw, extract, order, renewed, used);
    SwapKeepsConsistent(store, index, raw, extract, ModifiedUsers(store, index, raw, order), renewed, used);
  }
}
