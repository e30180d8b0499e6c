/**
 * The storage consolidation of `list_connected_devices_and_details`
 * (adb_utils.py:372-385): the storage records are gathered into an
 * insertion-ordered dictionary, "/storage/emulated/0" and, failing that,
 * "/storage/emulated" under the key "Internal Storage", every other store
 * under its own name.
 */
module Consolidation {
  import opened Wrappers
  import opened PyText
  import opened StorageSurvey

  const INTERNAL_NAME: string := "Internal Storage"

  /** A Python dict from names to records: keys in insertion order, each at most once. */
  type Table = seq<(string, StorageDetail)>

  function Keys(t: Table): (ks: seq<string>)
    ensures |ks| == |t| && forall i :: 0 <= i < |t| ==> ks[i] == t[i].0
  {
    if t == [] then [] else [t[0].0] + Keys(t[1..])
  }

  predicate UniqueKeys(t: Table) {
    forall i, j :: 0 <= i < j < |t| ==> t[i].0 != t[j].0
  }

  /** `d.get(k)`. */
  function Lookup(t: Table, k: string): Option<StorageDetail> {
    if t == [] then None else if t[0].0 == k then Some(t[0].1) else Lookup(t[1..], k)
  }

  /** `d[k] = v`: the value of an existing key is replaced where it stands, a new key goes last. */
  function Put(t: Table, k: string, v: StorageDetail): (r: Table)
    ensures |r| == if k in Keys(t) then |t| else |t| + 1
  {
    if t == [] then [(k, v)]
    else if t[0].0 == k then [(k, v)] + t[1..]
    else
      assert Keys(t) == [t[0].0] + Keys(t[1..]);
      [t[0]] + Put(t[1..], k, v)
  }

  /** After `d[k] = v`, `k` gives `v` and every other key what it gave before. */
  lemma {:induction false} PutLookup(t: Table, k: string, v: StorageDetail, k2: string)
    ensures Lookup(Put(t, k, v), k2) == if k2 == k then Some(v) else Lookup(t, k2)
  {
    if t != [] && t[0].0 != k {
      PutLookup(t[1..], k, v, k2);
      assert Put(t, k, v)[1..] == Put(t[1..], k, v);
    }
  }

  /** `d[k] = v` keeps the keys in place and appends `k` when it is new. */
  lemma {:induction false} PutKeys(t: Table, k: string, v: StorageDetail)
    ensures Keys(Put(t, k, v)) == if k in Keys(t) then Keys(t) else Keys(t) + [k]
  {
    if t != [] && t[0].0 != k {
      PutKeys(t[1..], k, v);
      assert Keys(t) == [t[0].0] + Keys(t[1..]);
      assert Put(t, k, v)[1..] == Put(t[1..], k, v);
      assert Keys(Put(t, k, v)) == [t[0].0] + Keys(Put(t[1..], k, v));
    }
  }

  /** `d[k] = v` never duplicates a key. */
  lemma PutUnique(t: Table, k: string, v: StorageDetail)
    requires UniqueKeys(t)
    ensures UniqueKeys(Put(t, k, v))
  {
    PutKeys(t, k, v);
    var r := Put(t, k, v);
    var kr, kt := Keys(r), Keys(t);
    if k in kt {
      forall i, j | 0 <= i < j < |r| ensures r[i].0 != r[j].0 {
        assert kr[i] == kt[i] && kr[j] == kt[j];
      }
    } else {
      forall i, j | 0 <= i < j < |r| ensures r[i].0 != r[j].0 {
        assert kr[i] == (kt + [k])[i] && kr[j] == (kt + [k])[j];
        if j == |t| {
          assert kr[i] == kt[i];
        }
      }
    }
  }

  /** Whether a store at "/storage/emulated/0" has been seen among `stores`. */
  predicate SeenZero(stores: seq<StorageDetail>) {
    exists i :: 0 <= i < |stores| && stores[i].path == INTERNAL_0
  }

  /**
   * The key a store is filed under, given whether "/storage/emulated/0" was
   * seen before it: the internal name or the store's own name, so a store
   * that is itself named "Internal Storage" shares the internal key.
   */
  function KeyFor(store: StorageDetail, seenZero: bool): (k: string)
    ensures k == INTERNAL_NAME || k == store.name
    ensures k == INTERNAL_NAME <==>
            store.path == INTERNAL_0 || (store.path == INTERNAL && !seenZero) || store.name == INTERNAL_NAME
  {
    if store.path == INTERNAL_0 then INTERNAL_NAME
    else if store.path == INTERNAL && !seenZero then INTERNAL_NAME
    else store.name
  }

  /** The key the store at index `j` is filed under. */
  function KeyAt(stores: seq<StorageDetail>, j: nat): string
    requires j < |stores|
  {
    KeyFor(stores[j], SeenZero(stores[..j]))
  }

  /** The consolidated table after filing every store in order. */
  function Consolidated(stores: seq<StorageDetail>): Table {
    if stores == [] then []
    else
      var init := stores[..|stores| - 1];
      Put(Consolidated(init), KeyFor(stores[|stores| - 1], SeenZero(init)), stores[|stores| - 1])
  }

  /** The reference reading of the dict: a key holds the last store filed under it. */
  function LastAssigned(stores: seq<StorageDetail>, k: string): Option<StorageDetail> {
    if stores == [] then None
    else if KeyAt(stores, |stores| - 1) == k then Some(stores[|stores| - 1])
    else LastAssigned(stores[..|stores| - 1], k)
  }

  /** Filing a store under a key is a dict assignment: the table never repeats a key. */
  lemma {:induction false} ConsolidatedUnique(stores: seq<StorageDetail>)
    ensures UniqueKeys(Consolidated(stores))
  {
    if stores != [] {
      var init := stores[..|stores| - 1];
      ConsolidatedUnique(init);
      PutUnique(Consolidated(init), KeyFor(stores[|stores| - 1], SeenZero(init)), stores[|stores| - 1]);
    }
  }

  /** Each key of the table holds the last store filed under it, and only filed keys appear. */
  lemma {:induction false} ConsolidatedLookup(stores: seq<StorageDetail>, k: string)
    ensures Lookup(Consolidated(stores), k) == LastAssigned(stores, k)
  {
    if stores != [] {
      var init := stores[..|stores| - 1];
      ConsolidatedLookup(init, k);
      PutLookup(Consolidated(init), KeyFor(stores[|stores| - 1], SeenZero(init)), stores[|stores| - 1], k);
    }
  }

  /** The store at `i` is the last one filed under `k`, so `k` holds it. */
  lemma {:induction false} LastAssignedAt(stores: seq<StorageDetail>, k: string, i: nat)
    requires i < |stores| && KeyAt(stores, i) == k
    requires forall j :: i < j < |stores| ==> KeyAt(stores, j) != k
    ensures LastAssigned(stores, k) == Some(stores[i])
  {
    var n := |stores| - 1;
    if i < n {
      var init := stores[..n];
      assert init[..i] == stores[..i];
      forall j | i < j < |init| ensures KeyAt(init, j) != k {
        assert init[..j] == stores[..j];
        assert KeyAt(stores, j) != k;
      }
      LastAssignedAt(init, k, i);
    }
  }

  /**
   * "/storage/emulated/0" is preferred: once it is filed as "Internal
   * Storage", a later "/storage/emulated" goes under its own name, so the
   * key keeps the "/storage/emulated/0" store unless a later store is
   * itself at that path or named "Internal Storage".
   */
  lemma InternalPrefersEmulatedZero(stores: seq<StorageDetail>, i: nat)
    requires i < |stores| && stores[i].path == INTERNAL_0
    requires forall j :: i < j < |stores| ==> stores[j].path != INTERNAL_0 && stores[j].name != INTERNAL_NAME
    ensures Lookup(Consolidated(stores), INTERNAL_NAME) == Some(stores[i])
  {
    forall j | i < j < |stores| ensures KeyAt(stores, j) != INTERNAL_NAME {
      assert stores[..j][i] == stores[i];
      assert SeenZero(stores[..j]);
    }
    LastAssignedAt(stores, INTERNAL_NAME, i);
    ConsolidatedLookup(stores, INTERNAL_NAME);
  }

  /** Without any "/storage/emulated/0" store, "/storage/emulated" is filed as "Internal Storage". */
  lemma InternalFallsBackToEmulated(stores: seq<StorageDetail>, i: nat)
    requires forall j :: 0 <= j < |stores| ==> stores[j].path != INTERNAL_0
    requires i < |stores| && stores[i].path == INTERNAL
    requires forall j :: i < j < |stores| ==> stores[j].path != INTERNAL && stores[j].name != INTERNAL_NAME
    ensures Lookup(Consolidated(stores), INTERNAL_NAME) == Some(stores[i])
  {
    forall j | 0 <= j <= i ensures !SeenZero(stores[..j]) {
      forall m | 0 <= m < j ensures stores[..j][m].path != INTERNAL_0 {
        assert stores[..j][m] == stores[m];
      }
    }
    LastAssignedAt(stores, INTERNAL_NAME, i);
    ConsolidatedLookup(stores, INTERNAL_NAME);
  }

  /** Filing one more store is one more dict assignment. */
  lemma ConsolidatedSnoc(stores: seq<StorageDetail>, i: nat)
    requires i < |stores|
    ensures Consolidated(stores[..i + 1]) == Put(Consolidated(stores[..i]), KeyFor(stores[i], SeenZero(stores[..i])), stores[i])
  {
    var prefix := stores[..i + 1];
    assert prefix[..i] == stores[..i] && prefix[i] == stores[i];
  }

  /** "/storage/emulated/0" has been seen after one more store exactly when it was before or that store is at it. */
  lemma SeenZeroSnoc(stores: seq<StorageDetail>, i: nat)
    requires i < |stores|
    ensures SeenZero(stores[..i + 1]) <==> SeenZero(stores[..i]) || stores[i].path == INTERNAL_0
  {
    var prefix := stores[..i + 1];
    if stores[i].path == INTERNAL_0 {
      assert prefix[i].path == INTERNAL_0;
    }
    if SeenZero(stores[..i]) {
      var m :| 0 <= m < i && stores[..i][m].path == INTERNAL_0;
      assert prefix[m] == stores[..i][m];
    }
    if SeenZero(prefix) {
      var m :| 0 <= m < i + 1 && prefix[m].path == INTERNAL_0;
      if m < i {
        assert stores[..i][m] == prefix[m];
      }
    }
  }

  /** The loop over the storage records, with the `internal_storage_0_found` flag. */
  method Consolidate(stores: seq<StorageDetail>) returns (info: Table)
    ensures info == Consolidated(stores)
    ensures UniqueKeys(info)
  {
    info := [];
    var internalStorage0Found := false;
    for i := 0 to |stores|
      invariant info == Consolidated(stores[..i])
      invariant internalStorage0Found == SeenZero(stores[..i])
    {
      var store := stores[i];
      ConsolidatedSnoc(stores, i);
      SeenZeroSnoc(stores, i);
      if store.path == INTERNAL_0 {
        info := Put(info, INTERNAL_NAME, store);
        internalStorage0Found := true;
      } else if store.path == INTERNAL && !internalStorage0Found {
        info := Put(info, INTERNAL_NAME, store);
      } else if Contains(store.name, "SD Card") || Contains(store.name, "External Storage") {
        info := Put(info, store.name, store);
      } else {
        info := Put(info, store.name, store);
      }
    }
    assert stores[..|stores|] == stores;
    ConsolidatedUnique(stores);
  }

  /** A "/storage/emulated" record listed before "/storage/emulated/0" is replaced by it, in the same place. */
  lemma EmulatedThenZero(emulated: StorageDetail, zero: StorageDetail)
    requires emulated.path == INTERNAL && zero.path == INTERNAL_0
    ensures Consolidated([emulated, zero]) == [(INTERNAL_NAME, zero)]
  {
    var s := [emulated, zero];
    assert s[..1] == [emulated] && [emulated][..0] == [];
    assert !SeenZero([]);
    assert Consolidated([emulated]) == [(INTERNAL_NAME, emulated)];
  }

  /** A "/storage/emulated" record listed after "/storage/emulated/0" is filed under its own name. */
  lemma ZeroThenEmulated(zero: StorageDetail, emulated: StorageDetail)
    requires emulated.path == INTERNAL && zero.path == INTERNAL_0 && emulated.name != INTERNAL_NAME
    ensures Consolidated([zero, emulated]) == [(INTERNAL_NAME, zero), (emulated.name, emulated)]
  {
    var s := [zero, emulated];
    assert s[..1] == [zero] && [zero][..0] == [];
    assert !SeenZero([]);
    assert Consolidated([zero]) == [(INTERNAL_NAME, zero)];
    assert [zero][0].path == INTERNAL_0;
    assert SeenZero([zero]);
    var t := [(INTERNAL_NAME, zero)];
    assert t[1..] == [];
    assert Put(t, emulated.name, emulated) == [t[0]] + Put([], emulated.name, emulated);
  }
}
