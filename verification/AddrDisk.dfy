/** Saving and loading an address manager object: the loops of `CAddrMan::Serialize` and
    `Unserialize`, proved against AddrWire. */
module AddrDisk {
  import opened AddrState
  import opened AddrOps
  import opened AddrMan
  import opened AddrWire
  import opened AddrLoad

  // --- Saving -------------------------------------------------------------------------------

  function IndexAt(m: map<int, int>, id: int): int
    requires id in m
  {
    m[id]
  }

  /** The map finds every listed id below `n`. */
  ghost predicate KnowsIndexes(m: map<int, int>, ids: set<int>, order: seq<int>, n: nat) {
    forall id <- ids :: 0 <= id < n ==> id in m && 0 <= IndexAt(m, id) < |order| && IdAt(order, IndexAt(m, id)) == id
  }

  lemma NextIndex(m: map<int, int>, ids: set<int>, n: nat, nIds: nat)
    requires KnowsIndexes(m, ids, Ascending(ids, n), n) && nIds == |Ascending(ids, n)|
    ensures KnowsIndexes(m[n := nIds], ids, Ascending(ids, n + 1), n + 1)
    ensures n !in ids ==> KnowsIndexes(m, ids, Ascending(ids, n + 1), n + 1)
  {
    hide Ascending;
    AscendingNext(ids, n);
    var before, after, more := Ascending(ids, n), Ascending(ids, n + 1), m[n := nIds];
    assert forall i | 0 <= i < |before| :: IdAt(after, i) == IdAt(before, i);
    assert n in ids ==> IdAt(after, nIds) == n;
    assert forall id <- m :: id != n ==> IndexAt(more, id) == IndexAt(m, id);
    assert IndexAt(more, n) == nIds;
  }

  lemma SavedNext(info: Infos, ids: seq<int>, id: int)
    requires (forall i | 0 <= i < |ids| :: IdAt(ids, i) in info) && id in info
    ensures forall i | 0 <= i < |ids + [id]| :: IdAt(ids + [id], i) in info
    ensures SavedAll(info, ids + [id]) == SavedAll(info, ids) + [Save(info[id])]
  {
    var more := ids + [id];
    forall i | 0 <= i < |more|
      ensures IdAt(more, i) == if i < |ids| then IdAt(ids, i) else id
    {
    }
  }

  /** Writes the entries with references and remembers where each one is. */
  method WriteNew(m: CAddrMan) returns (entries: seq<Saved>, mapUnkIds: map<int, int>)
    requires m.Valid()
    ensures entries == SavedAll(m.mapInfo, NewOrder(m.View()))
    ensures KnowsIndexes(mapUnkIds, NewIds(m.mapInfo), NewOrder(m.View()), m.nIdCount)
  {
    hide Inv, TableOf, Ascending, KnowsIndexes;
    ghost var ids := NewIds(m.mapInfo);
    Counted(m.h, m.View());
    entries, mapUnkIds := [], map[];
    var nIds, id := 0, 0;
    NothingListed(ids);
    while id < m.nIdCount
      invariant 0 <= id <= m.nIdCount && nIds == |entries| == |Ascending(ids, id)|
      invariant entries == SavedAll(m.mapInfo, Ascending(ids, id))
      invariant KnowsIndexes(mapUnkIds, ids, Ascending(ids, id), id)
    {
      AscendingNext(ids, id);
      assert Ascending(ids, id) + [] == Ascending(ids, id);
      NextIndex(mapUnkIds, ids, id, nIds);
      if id in m.mapInfo {
        ReferencedIffNew(m.h, m.View(), id);
        mapUnkIds := mapUnkIds[id := nIds];
        if m.mapInfo[id].nRefCount != 0 {
          StillToCome(ids, id, m.nIdCount);
          assert nIds != m.nNew;
          SavedNext(m.mapInfo, Ascending(ids, id), id);
          entries := entries + [Save(m.mapInfo[id])];
          nIds := nIds + 1;
        }
      }
      id := id + 1;
    }
  }

  lemma NothingListed(ids: set<int>)
    ensures Ascending(ids, 0) == [] && KnowsIndexes(map[], ids, Ascending(ids, 0), 0)
  {
  }

  method WriteTried(m: CAddrMan) returns (entries: seq<Saved>)
    requires m.Valid()
    ensures entries == SavedAll(m.mapInfo, TriedOrder(m.View()))
  {
    hide Inv, TableOf, Ascending;
    ghost var ids := TriedIds(m.mapInfo);
    Counted(m.h, m.View());
    entries := [];
    var nIds, id := 0, 0;
    NothingListed(ids);
    while id < m.nIdCount
      invariant 0 <= id <= m.nIdCount && nIds == |entries| == |Ascending(ids, id)|
      invariant entries == SavedAll(m.mapInfo, Ascending(ids, id))
    {
      AscendingNext(ids, id);
      assert Ascending(ids, id) + [] == Ascending(ids, id);
      if id in m.mapInfo && m.mapInfo[id].fInTried {
        StillToCome(ids, id, m.nIdCount);
        assert nIds != m.nTried;
        SavedNext(m.mapInfo, Ascending(ids, id), id);
        entries := entries + [Save(m.mapInfo[id])];
        nIds := nIds + 1;
      }
      id := id + 1;
    }
  }

  /** The entry in an occupied slot, as the written list knows it. */
  lemma SlotIndex(h: Hasher, s: State, m: map<int, int>, slot: Slot)
    requires Consistent(h, s) && Writable(s) && slot in s.newTable
    requires KnowsIndexes(m, NewIds(s.info), NewOrder(s), s.nIdCount)
    ensures Held(s.newTable, slot) in m
    ensures IndexAt(m, Held(s.newTable, slot)) == IndexOf(NewOrder(s), Held(s.newTable, slot))
  {
    hide RandomOk, TriedOk, RefsOk, TimesOk, CountsOk, Ascending, NewSlot;
    var id := Held(s.newTable, slot);
    assert id in NewIds(s.info) && 0 <= id < s.nIdCount;
    IndexOnce(NewOrder(s), id, IndexAt(m, id));
  }

  method WriteBucket(m: CAddrMan, bucket: nat, mapUnkIds: map<int, int>) returns (list: seq<int>)
    requires m.Valid() && Writable(m.View()) && bucket < NEW_BUCKETS
    requires KnowsIndexes(mapUnkIds, NewIds(m.mapInfo), NewOrder(m.View()), m.nIdCount)
    ensures list == BucketList(m.View(), bucket, BUCKET_SIZE)
  {
    hide Inv, TableOf, Ascending, KnowsIndexes, NewIds, Writable;
    list := [];
    var i := 0;
    while i < BUCKET_SIZE
      invariant 0 <= i <= BUCKET_SIZE && list == BucketList(m.View(), bucket, i)
    {
      TableAt(m.vvNew, bucket, i);
      assert list + [] == list;
      if m.vvNew[bucket, i] != -1 {
        SlotIndex(m.h, m.View(), mapUnkIds, Slot(bucket, i));
        list := list + [IndexAt(mapUnkIds, m.vvNew[bucket, i])];
      }
      i := i + 1;
    }
  }

  method Serialize(m: CAddrMan) returns (w: Wire)
    requires m.Valid()
    ensures Writable(m.View()) && m.nNew >= 0 && m.nTried >= 0 && w == Serialized(m.View())
  {
    hide Inv, TableOf, Ascending, BucketList, KnowsIndexes, NewIds, Writable;
    ghost var s := m.View();
    ConsistentWritable(m.h, s);
    Counted(m.h, s);
    var newEntries, mapUnkIds := WriteNew(m);
    var triedEntries := WriteTried(m);
    var buckets: seq<seq<int>> := [];
    var bucket := 0;
    while bucket < NEW_BUCKETS
      invariant 0 <= bucket <= NEW_BUCKETS && |buckets| == bucket
      invariant forall b: nat | b < bucket :: buckets[b] == BucketList(s, b, BUCKET_SIZE)
    {
      var list := WriteBucket(m, bucket, mapUnkIds);
      buckets := buckets + [list];
      bucket := bucket + 1;
    }
    w := Wire(1, 32, m.nKey, m.nNew, m.nTried, FlipBit30(NEW_BUCKETS), newEntries, triedEntries, buckets);
    assert buckets == Serialized(s).buckets;
  }

  // --- Loading ------------------------------------------------------------------------------

  /** Marks every slot of a bucket array free. */
  method ClearTable(a: array2<int>)
    modifies a
    ensures TableOf(a) == map[]
  {
    var bucket := 0;
    while bucket < a.Length0
      invariant 0 <= bucket <= a.Length0
      invariant forall b: nat, p: nat | b < bucket && p < a.Length1 :: a[b, p] == -1
    {
      var entry := 0;
      while entry < a.Length1
        invariant 0 <= entry <= a.Length1
        invariant forall b: nat, p: nat | b < bucket && p < a.Length1 :: a[b, p] == -1
        invariant forall p: nat | p < entry :: a[bucket, p] == -1
      {
        a[bucket, entry] := -1;
        entry := entry + 1;
      }
      bucket := bucket + 1;
    }
  }

  method Clear(m: CAddrMan, nKey: nat)
    requires m.Shaped()
    modifies m, m.vvNew, m.vvTried
    ensures m.View() == Cleared(nKey)
  {
    ClearTable(m.vvNew);
    ClearTable(m.vvTried);
    m.vRandom, m.nKey, m.nIdCount, m.nTried, m.nNew, m.nLastGood := [], nKey, 0, 0, 0, 1;
    m.mapInfo, m.mapAddr := map[], map[];
  }

  /** Ids are below `n`, and vRandom lists them. */
  ghost predicate Indexed(s: State, n: nat) {
    RandomOk(s.info, s.random) && forall id <- s.info :: 0 <= id < n
  }

  method ReadNew(m: CAddrMan, w: Wire) returns (ok: bool)
    requires m.Shaped() && m.View() == Cleared(w.nKey).(nNew := w.nNew, nTried := w.nTried)
    modifies m, m.vvNew
    ensures ok <==> w.nNew <= |w.newEntries|
    ensures ok ==> m.View() == LoadTried(m.h, w, 0) && Indexed(m.View(), w.nNew) && m.nKey == w.nKey
  {
    hide TableOf, HomeSlot, Linked, RandomOk;
    NothingIndexed(m.View());
    var n := 0;
    while n < w.nNew
      invariant 0 <= n <= w.nNew && n <= |w.newEntries| && m.View() == LoadNew(m.h, w, n) && Indexed(m.View(), n)
      invariant m.nKey == w.nKey
    {
      if n == |w.newEntries| {
        return false;
      }
      ReadNewEntry(m, w, n);
      n := n + 1;
    }
    m.nIdCount := w.nNew;
    return true;
  }

  lemma NothingIndexed(s: State)
    requires s.info == map[] && s.random == []
    ensures Indexed(s, 0)
  {
  }

  method ReadNewEntry(m: CAddrMan, w: Wire, n: nat)
    requires m.Shaped() && n < |w.newEntries| && m.View() == LoadNew(m.h, w, n) && Indexed(m.View(), n)
    requires m.nKey == w.nKey
    modifies m, m.vvNew
    ensures m.View() == LoadNew(m.h, w, n + 1) && Indexed(m.View(), n + 1) && m.nKey == w.nKey
  {
    hide TableOf, GetNewBucket, GetBucketPosition, RandomOk;
    ghost var s := m.View();
    var info := Load(w.newEntries[n]);
    EnterRandomOk(s, n, info);
    info := info.(nRandomPos := |m.vRandom|);
    m.mapInfo := m.mapInfo[n := info];
    m.mapAddr := m.mapAddr[info.addr.service.ip := n];
    m.vRandom := m.vRandom + [n];
    ghost var e := m.View();
    assert e == Enter(s, n, Load(w.newEntries[n]));
    if !UsesTable(w) {
      var nUBucket := GetNewBucket(m.h, m.nKey, info.addr.service, info.source);
      var nUBucketPos := GetBucketPosition(m.h, m.nKey, true, nUBucket, info.addr.service);
      TableAt(m.vvNew, nUBucket, nUBucketPos);
      if m.vvNew[nUBucket, nUBucketPos] == -1 {
        LinkedRandomOk(e, Slot(nUBucket, nUBucketPos), n);
        SetSlot(m.vvNew, nUBucket, nUBucketPos, n);
        m.mapInfo := m.mapInfo[n := m.mapInfo[n].(nRefCount := m.mapInfo[n].nRefCount + 1)];
        assert m.View() == Linked(e, Slot(nUBucket, nUBucketPos), n);
      }
    }
  }

  method ReadTried(m: CAddrMan, w: Wire) returns (ok: bool)
    requires m.Shaped() && w.nNew <= |w.newEntries| && m.View() == LoadTried(m.h, w, 0) && Indexed(m.View(), w.nNew)
    requires m.nKey == w.nKey
    modifies m, m.vvTried
    ensures ok <==> w.nTried <= |w.triedEntries|
    ensures ok ==> m.View() == LoadTried(m.h, w, w.nTried) && Indexed(m.View(), m.nIdCount) && m.nKey == w.nKey
  {
    hide TableOf, TriedSlot, Enter, LoadNew, RandomOk;
    var n, nLost := 0, 0;
    while n < w.nTried
      invariant 0 <= n <= w.nTried && n <= |w.triedEntries| && Indexed(m.View(), m.nIdCount) && m.nKey == w.nKey
      invariant m.View().(nTried := m.nTried - nLost) == LoadTried(m.h, w, n)
    {
      if n == |w.triedEntries| {
        return false;
      }
      var kept := ReadTriedEntry(m, w, n, nLost);
      if !kept {
        nLost := nLost + 1;
      }
      n := n + 1;
    }
    m.nTried := m.nTried - nLost;
    return true;
  }

  method ReadTriedEntry(m: CAddrMan, w: Wire, n: nat, ghost nLost: nat) returns (kept: bool)
    requires m.Shaped() && w.nNew <= |w.newEntries| && n < |w.triedEntries|
    requires m.View().(nTried := m.nTried - nLost) == LoadTried(m.h, w, n) && Indexed(m.View(), m.nIdCount)
    requires m.nKey == w.nKey
    modifies m, m.vvTried
    ensures m.View().(nTried := m.nTried - nLost - if kept then 0 else 1) == LoadTried(m.h, w, n + 1)
    ensures Indexed(m.View(), m.nIdCount) && m.nKey == w.nKey
  {
    hide TableOf, GetTriedBucket, GetBucketPosition, RandomOk, LoadNew;
    ghost var s := m.View();
    var info := Load(w.triedEntries[n]);
    var nKBucket := GetTriedBucket(m.h, m.nKey, info.addr.service);
    var nKBucketPos := GetBucketPosition(m.h, m.nKey, false, nKBucket, info.addr.service);
    TableAt(m.vvTried, nKBucket, nKBucketPos);
    kept := m.vvTried[nKBucket, nKBucketPos] == -1;
    if kept {
      EnterRandomOk(s, m.nIdCount, info.(fInTried := true));
      info := info.(nRandomPos := |m.vRandom|, fInTried := true);
      m.vRandom := m.vRandom + [m.nIdCount];
      m.mapInfo := m.mapInfo[m.nIdCount := info];
      m.mapAddr := m.mapAddr[info.addr.service.ip := m.nIdCount];
      SetSlot(m.vvTried, nKBucket, nKBucketPos, m.nIdCount);
      m.nIdCount := m.nIdCount + 1;
    }
  }

  /** What is read of the new table: the indices of each bucket, where the table can be used. */
  method ReadBuckets(m: CAddrMan, w: Wire) returns (ok: bool)
    requires m.Shaped() && m.nKey == w.nKey && Indexed(m.View(), m.nIdCount) && m.nNew == w.nNew
    requires forall k | 0 <= k < w.nNew :: k in m.mapInfo
    modifies m`mapInfo, m.vvNew
    ensures ok <==> Buckets(w) <= |w.buckets|
    ensures ok ==> m.View() == LoadBuckets(m.h, w, old(m.View()), Buckets(w)) && Indexed(m.View(), m.nIdCount)
  {
    hide TableOf, RandomOk, LoadList, Buckets;
    ghost var s := m.View();
    var bucket, nUBuckets := 0, Buckets(w);
    while bucket < nUBuckets
      invariant 0 <= bucket <= nUBuckets && bucket <= |w.buckets| && m.View() == LoadBuckets(m.h, w, s, bucket)
      invariant Indexed(m.View(), m.nIdCount) && forall k | 0 <= k < w.nNew :: k in m.mapInfo
    {
      if bucket == |w.buckets| {
        return false;
      }
      ReadBucket(m, w, bucket);
      bucket := bucket + 1;
    }
    return true;
  }

  method ReadBucket(m: CAddrMan, w: Wire, bucket: nat)
    requires m.Shaped() && m.nKey == w.nKey && Indexed(m.View(), m.nIdCount) && m.nNew == w.nNew && bucket < |w.buckets|
    requires bucket < Buckets(w) && forall k | 0 <= k < w.nNew :: k in m.mapInfo
    modifies m`mapInfo, m.vvNew
    ensures m.View() == LoadList(m.h, w, old(m.View()), bucket, w.buckets[bucket]) && Indexed(m.View(), m.nIdCount)
    ensures forall k | 0 <= k < w.nNew :: k in m.mapInfo
  {
    hide TableOf, RandomOk, LoadIndex, Buckets;
    ghost var s := m.View();
    var list, n := w.buckets[bucket], 0;
    while n < |list|
      invariant 0 <= n <= |list| && m.View() == LoadList(m.h, w, s, bucket, list[..n])
      invariant Indexed(m.View(), m.nIdCount) && forall k | 0 <= k < w.nNew :: k in m.mapInfo
    {
      assert list[..n + 1][..n] == list[..n] && IdAt(list[..n + 1], n) == list[n];
      ReadIndex(m, w, bucket, list[n]);
      n := n + 1;
    }
    assert list[..n] == list;
  }

  method ReadIndex(m: CAddrMan, w: Wire, bucket: nat, nIndex: int)
    requires m.Shaped() && m.nKey == w.nKey && Indexed(m.View(), m.nIdCount) && m.nNew == w.nNew && bucket < Buckets(w)
    requires forall k | 0 <= k < w.nNew :: k in m.mapInfo
    modifies m`mapInfo, m.vvNew
    ensures m.View() == LoadIndex(m.h, w, old(m.View()), bucket, nIndex) && Indexed(m.View(), m.nIdCount)
    ensures m.mapInfo.Keys == old(m.mapInfo.Keys)
  {
    hide TableOf, RandomOk, GetBucketPosition;
    ghost var s := m.View();
    if nIndex >= 0 && nIndex < m.nNew {
      var info := m.mapInfo[nIndex];
      var nUBucketPos := GetBucketPosition(m.h, m.nKey, true, bucket, info.addr.service);
      if UsesTable(w) {
        TableAt(m.vvNew, bucket, nUBucketPos);
        if m.vvNew[bucket, nUBucketPos] == -1 && info.nRefCount < NEW_BUCKETS_PER_ADDRESS {
          LinkedRandomOk(s, Slot(bucket, nUBucketPos), nIndex);
          m.mapInfo := m.mapInfo[nIndex := info.(nRefCount := info.nRefCount + 1)];
          SetSlot(m.vvNew, bucket, nUBucketPos, nIndex);
          assert m.View() == Linked(s, Slot(bucket, nUBucketPos), nIndex);
        }
      }
    }
  }

  /** Deletes the new entries that got no reference. */
  method Prune(m: CAddrMan)
    requires m.Shaped() && Indexed(m.View(), m.nIdCount)
    modifies m
    ensures m.View() == Pruned(old(m.View()), Ascending(old(m.mapInfo.Keys), old(m.nIdCount)))
  {
    hide TableOf, RandomOk, Ascending, Deleted;
    ghost var s, ids := m.View(), m.mapInfo.Keys;
    var id := 0;
    NothingListed(ids);
    while id < m.nIdCount
      invariant 0 <= id <= m.nIdCount == s.nIdCount && m.View() == Pruned(s, Ascending(ids, id))
      invariant RandomOk(m.mapInfo, m.vRandom) && forall x: int | x >= id :: x in m.mapInfo <==> x in ids
    {
      AscendingNext(ids, id);
      PrunedNext(s, ids, id);
      if id in m.mapInfo && !m.mapInfo[id].fInTried && m.mapInfo[id].nRefCount == 0 {
        DeleteRandomOk(m.View(), id);
        m.Delete(id);
      }
      id := id + 1;
    }
  }

  lemma PrunedNext(s: State, ids: set<int>, id: nat)
    ensures var t := Pruned(s, Ascending(ids, id));
            Pruned(s, Ascending(ids, id + 1)) ==
            if id in ids && RandomOk(t.info, t.random) && id in t.info && !t.info[id].fInTried &&
                t.info[id].nRefCount == 0
            then Deleted(t, id) else t
  {
    hide RandomOk, Ascending, Deleted;
    AscendingNext(ids, id);
    var front := Ascending(ids, id);
    assert front + [] == front;
    if id in ids {
      assert (front + [id])[..|front|] == front && IdAt(front + [id], |front|) == id;
    }
  }

  /** Loads an address manager. Anything that could not have been written is an error, and the object
      is then left part-way. */
  method Unserialize(m: CAddrMan, w: Wire) returns (ok: bool)
    requires m.Shaped()
    modifies m, m.vvNew, m.vvTried
    ensures ok <==> Unserialized(m.h, w).Success?
    ensures ok ==> m.View() == Unserialized(m.h, w).state
    ensures ok && WellFormed(w) ==> m.Valid()
  {
    hide WellFormed, Inv, TableOf, RandomOk, LoadNew, LoadTried, LoadBuckets, Pruned, Ascending, Buckets;
    Clear(m, w.nKey);
    if w.nKeySize != 32 {
      return false;
    }
    m.nNew, m.nTried := w.nNew, w.nTried;
    if m.nNew > NEW_BUCKETS * BUCKET_SIZE {
      return false;
    }
    if m.nTried > TRIED_BUCKETS * BUCKET_SIZE {
      return false;
    }
    ok := ReadNew(m, w);
    if !ok {
      return;
    }
    ok := ReadTried(m, w);
    if !ok {
      return;
    }
    CountsLoaded(m.h, w, w.nTried);
    ok := ReadBuckets(m, w);
    if !ok {
      return;
    }
    Prune(m);
    if WellFormed(w) {
      FileConsistent(m.h, w);
    }
  }

  lemma {:induction false} CountsLoaded(h: Hasher, w: Wire, n: nat)
    requires w.nNew <= |w.newEntries| && n <= |w.triedEntries|
    ensures LoadTried(h, w, n).nNew == w.nNew
  {
    hide TriedSlot, LoadNew;
    if n == 0 {
      NewLoaded(h, w, w.nNew);
    } else {
      CountsLoaded(h, w, n - 1);
    }
  }

  lemma {:induction false} NewLoaded(h: Hasher, w: Wire, n: nat)
    requires n <= |w.newEntries|
    ensures LoadNew(h, w, n).nNew == w.nNew
  {
    hide HomeSlot;
    if n > 0 {
      NewLoaded(h, w, n - 1);
    }
  }

  /** An object saved and loaded again is consistent and the same up to a renaming of ids. */
  method SaveAndLoad(m: CAddrMan, other: CAddrMan)
    requires m.Valid() && other.Shaped() && other.h == m.h
    requires {other, other.vvNew, other.vvTried} !! {m, m.vvNew, m.vvTried}
    modifies other, other.vvNew, other.vvTried
    ensures other.Valid() && Renamed(m.View(), other.View())
  {
    hide Inv, TableOf, Renamed, Serialized, Unserialized, Writable;
    RoundTrip(m.h, m.View());
    var w := Serialize(m);
    var ok := Unserialize(other, w);
  }
}
