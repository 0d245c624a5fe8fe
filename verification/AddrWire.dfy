/** Saving and loading the address manager (`CAddrMan::Serialize` and `Unserialize`). */
module AddrWire {
  import opened AddrState
  import opened AddrOps

  // --- What is written ----------------------------------------------------------------------

  /** The fields of an entry that are saved. */
  datatype Saved = Saved(addr: Address, source: NetAddr, nLastSuccess: int, nAttempts: int)

  datatype Wire = Wire(
    nVersion: nat,
    nKeySize: nat,
    nKey: nat,
    nNew: nat,
    nTried: nat,
    nUBuckets: nat,
    newEntries: seq<Saved>,
    triedEntries: seq<Saved>,
    buckets: seq<seq<int>>)

  function Save(i: AddrInfo): Saved {
    Saved(i.addr, i.source, i.nLastSuccess, i.nAttempts)
  }

  function Load(v: Saved): AddrInfo {
    AddrInfo(v.addr, v.source, 0, 0, v.nLastSuccess, v.nAttempts, 0, false, -1)
  }

  /** The bucket count is written with bit 30 flipped, so that old readers reject it. */
  function FlipBit30(x: nat): nat {
    if x / 0x4000_0000 % 2 == 0 then x + 0x4000_0000 else x - 0x4000_0000
  }

  lemma FlipTwice(x: nat)
    ensures FlipBit30(FlipBit30(x)) == x
  {
  }

  /** The ids below `n` in ascending order, as std::map iterates. */
  function Ascending(ids: set<int>, n: nat): (r: seq<int>)
    ensures forall i | 0 <= i < |r| :: IdAt(r, i) in ids && 0 <= IdAt(r, i) < n
    ensures forall i, j | 0 <= i < j < |r| :: IdAt(r, i) < IdAt(r, j)
  {
    if n == 0 then []
    else
      var front := Ascending(ids, n - 1);
      AtEnd(front, n - 1, ids);
      if n - 1 in ids then front + [n - 1] else front
  }

  lemma AtEnd(front: seq<int>, last: int, ids: set<int>)
    requires forall i | 0 <= i < |front| :: IdAt(front, i) in ids && 0 <= IdAt(front, i) < last
    requires forall i, j | 0 <= i < j < |front| :: IdAt(front, i) < IdAt(front, j)
    ensures var r := front + [last];
            && (forall i, j | 0 <= i < j < |r| :: IdAt(r, i) < IdAt(r, j))
            && (last in ids && last >= 0 ==> forall i | 0 <= i < |r| :: IdAt(r, i) in ids && 0 <= IdAt(r, i) <= last)
  {
    var r := front + [last];
    forall i | 0 <= i < |r|
      ensures IdAt(r, i) == if i < |front| then IdAt(front, i) else last
    {
    }
  }

  /** Every id is listed. */
  lemma {:induction false} AscendingLists(ids: set<int>, n: nat, id: int)
    requires id in ids && 0 <= id < n
    ensures exists i | 0 <= i < |Ascending(ids, n)| :: IdAt(Ascending(ids, n), i) == id
  {
    var front := Ascending(ids, n - 1);
    if id == n - 1 {
      assert IdAt(Ascending(ids, n), |front|) == id;
    } else {
      AscendingLists(ids, n - 1, id);
      var i :| 0 <= i < |front| && IdAt(front, i) == id;
      assert IdAt(Ascending(ids, n), i) == id;
    }
  }

  /** New entries are written first, then tried ones, each in the order of their ids. */
  function NewOrder(s: State): seq<int> { Ascending(NewIds(s.info), s.nIdCount) }
  function TriedOrder(s: State): seq<int> { Ascending(TriedIds(s.info), s.nIdCount) }

  predicate Lists(xs: seq<int>, x: int) {
    exists i | 0 <= i < |xs| :: IdAt(xs, i) == x
  }

  ghost function IndexOf(xs: seq<int>, x: int): (i: nat)
    requires Lists(xs, x)
    ensures i < |xs| && IdAt(xs, i) == x
  {
    var i :| 0 <= i < |xs| && IdAt(xs, i) == x; i
  }

  /** Every reference is to an entry that is written. */
  predicate Writable(s: State) {
    forall slot <- s.newTable :: Lists(NewOrder(s), Held(s.newTable, slot))
  }

  lemma ConsistentWritable(h: Hasher, s: State)
    requires Consistent(h, s)
    ensures Writable(s)
  {
    hide RandomOk, TriedOk, RefsOk, TimesOk, CountsOk;
    forall slot | slot in s.newTable
      ensures Lists(NewOrder(s), Held(s.newTable, slot))
    {
      AscendingLists(NewIds(s.info), s.nIdCount, Held(s.newTable, slot));
    }
  }

  /** The indices written for the first `n` positions of a bucket. */
  ghost function BucketList(s: State, bucket: nat, n: nat): seq<int>
    requires Writable(s)
  {
    if n == 0 then []
    else
      var slot := Slot(bucket, n - 1);
      BucketList(s, bucket, n - 1) +
      if slot in s.newTable then [IndexOf(NewOrder(s), Held(s.newTable, slot))] else []
  }

  function SavedAll(info: Infos, ids: seq<int>): (r: seq<Saved>)
    requires forall i | 0 <= i < |ids| :: IdAt(ids, i) in info
    ensures |r| == |ids| && forall i | 0 <= i < |ids| :: r[i] == Save(info[IdAt(ids, i)])
  {
    seq(|ids|, i requires 0 <= i < |ids| => Save(info[IdAt(ids, i)]))
  }

  ghost function Serialized(s: State): Wire
    requires Writable(s) && s.nNew >= 0 && s.nTried >= 0
  {
    Wire(1, 32, s.nKey, s.nNew, s.nTried, FlipBit30(NEW_BUCKETS),
         SavedAll(s.info, NewOrder(s)), SavedAll(s.info, TriedOrder(s)),
         seq(NEW_BUCKETS, b requires 0 <= b < NEW_BUCKETS => BucketList(s, b, BUCKET_SIZE)))
  }

  /** Version 1 with a key of 32 bytes, 1024 buckets with bit 30 flipped, and a list for each of them. */
  lemma SavedHeader(s: State)
    requires Writable(s) && s.nNew >= 0 && s.nTried >= 0
    ensures var w := Serialized(s);
            && w.nVersion == 1 && w.nKeySize == 32 && w.nUBuckets == 1024 + 0x4000_0000 && |w.buckets| == 1024
            && UsesTable(w)
  {
    hide Writable, SavedAll, BucketList;
  }

  // --- How it is read -----------------------------------------------------------------------

  datatype Result = Success(state: State) | Failure

  function Buckets(w: Wire): nat {
    if w.nVersion != 0 then FlipBit30(w.nUBuckets) else w.nUBuckets
  }

  /** The new table on the wire can be used. */
  predicate UsesTable(w: Wire) {
    w.nVersion == 1 && Buckets(w) == NEW_BUCKETS
  }

  function Enter(s: State, id: int, i: AddrInfo): State {
    s.(info := s.info[id := i.(nRandomPos := |s.random|)], byAddr := s.byAddr[i.addr.service.ip := id],
       random := s.random + [id])
  }

  /** The state after `n` new entries are read. */
  function LoadNew(h: Hasher, w: Wire, n: nat): (s: State)
    requires n <= |w.newEntries|
    ensures forall k | 0 <= k < n :: k in s.info
  {
    if n == 0 then Cleared(w.nKey).(nNew := w.nNew, nTried := w.nTried)
    else
      var s := Enter(LoadNew(h, w, n - 1), n - 1, Load(w.newEntries[n - 1]));
      var slot := HomeSlot(h, w.nKey, s.info[n - 1]);
      if !UsesTable(w) && slot !in s.newTable then Linked(s, slot, n - 1) else s
  }

  /** The state after `n` tried entries are read; one whose slot is taken is lost. */
  function LoadTried(h: Hasher, w: Wire, n: nat): (s: State)
    requires w.nNew <= |w.newEntries| && n <= |w.triedEntries|
    ensures forall k | 0 <= k < w.nNew :: k in s.info
    ensures s.nIdCount >= w.nNew
  {
    if n == 0 then LoadNew(h, w, w.nNew).(nIdCount := w.nNew)
    else
      var s := LoadTried(h, w, n - 1);
      var i := Load(w.triedEntries[n - 1]).(fInTried := true);
      var slot := TriedSlot(h, w.nKey, i.addr.service);
      if slot in s.tried then s.(nTried := s.nTried - 1)
      else Enter(s, s.nIdCount, i).(tried := s.tried[slot := s.nIdCount], nIdCount := s.nIdCount + 1)
  }

  /** One index read from a bucket. */
  function LoadIndex(h: Hasher, w: Wire, s: State, bucket: nat, nIndex: int): State {
    if 0 <= nIndex < w.nNew && nIndex in s.info then
      var slot := NewSlot(h, w.nKey, bucket, s.info[nIndex].addr.service);
      if UsesTable(w) && slot !in s.newTable && s.info[nIndex].nRefCount < NEW_BUCKETS_PER_ADDRESS
      then Linked(s, slot, nIndex) else s
    else s
  }

  function LoadList(h: Hasher, w: Wire, s: State, bucket: nat, list: seq<int>): State {
    if list == [] then s
    else LoadIndex(h, w, LoadList(h, w, s, bucket, list[..|list| - 1]), bucket, IdAt(list, |list| - 1))
  }

  function LoadBuckets(h: Hasher, w: Wire, s: State, n: nat): State
    requires n <= |w.buckets|
  {
    if n == 0 then s else LoadList(h, w, LoadBuckets(h, w, s, n - 1), n - 1, w.buckets[n - 1])
  }

  /** New entries without a reference are deleted. */
  function Pruned(s: State, ids: seq<int>): State {
    if ids == [] then s
    else
      var t := Pruned(s, ids[..|ids| - 1]);
      var id := IdAt(ids, |ids| - 1);
      if RandomOk(t.info, t.random) && id in t.info && !t.info[id].fInTried &&
          t.info[id].nRefCount == 0 then Deleted(t, id) else t
  }

  function Unserialized(h: Hasher, w: Wire): Result {
    if w.nKeySize != 32 then Failure
    else if w.nNew > NEW_BUCKETS * BUCKET_SIZE || w.nTried > TRIED_BUCKETS * BUCKET_SIZE then Failure
    else if |w.newEntries| < w.nNew || |w.triedEntries| < w.nTried || |w.buckets| < Buckets(w) then Failure
    else
      var t := LoadBuckets(h, w, LoadTried(h, w, w.nTried), Buckets(w));
      Success(Pruned(t, Ascending(t.info.Keys, t.nIdCount)))
  }

  // --- The entry behind each new id ---------------------------------------------------------

  function Total(s: State): nat { |NewOrder(s)| + |TriedOrder(s)| }

  /** The old id of the k-th entry written. */
  function Origin(s: State, k: nat): int
    requires k < Total(s)
  {
    if k < |NewOrder(s)| then IdAt(NewOrder(s), k) else IdAt(TriedOrder(s), k - |NewOrder(s)|)
  }

  lemma OriginIs(s: State, k: nat)
    requires k < Total(s)
    ensures Origin(s, k) in s.info && (s.info[Origin(s, k)].fInTried <==> k >= |NewOrder(s)|)
  {
    if k < |NewOrder(s)| {
      assert IdAt(NewOrder(s), k) in NewIds(s.info);
    } else {
      assert IdAt(TriedOrder(s), k - |NewOrder(s)|) in TriedIds(s.info);
    }
  }

  lemma OriginOnce(s: State, j: nat, k: nat)
    requires j < Total(s) && k < Total(s) && Origin(s, j) == Origin(s, k)
    ensures j == k
  {
    OriginIs(s, j);
    OriginIs(s, k);
  }

  lemma OriginAll(s: State, id: int) returns (k: nat)
    requires id in s.info && 0 <= id < s.nIdCount
    ensures k < Total(s) && Origin(s, k) == id
  {
    if s.info[id].fInTried {
      AscendingLists(TriedIds(s.info), s.nIdCount, id);
      var i :| 0 <= i < |TriedOrder(s)| && IdAt(TriedOrder(s), i) == id;
      k := |NewOrder(s)| + i;
    } else {
      AscendingLists(NewIds(s.info), s.nIdCount, id);
      k :| 0 <= k < |NewOrder(s)| && IdAt(NewOrder(s), k) == id;
    }
  }

  /** The entry that the k-th one written was made from. */
  function Src(s: State, k: nat): AddrInfo
    requires k < Total(s)
  {
    OriginIs(s, k);
    s.info[Origin(s, k)]
  }

  function Below(ids: set<int>, n: nat): set<int> {
    set id | 0 <= id < n && id in ids
  }

  lemma {:induction false} AscendingSize(ids: set<int>, n: nat)
    ensures |Ascending(ids, n)| == |Below(ids, n)|
  {
    if n > 0 {
      AscendingSize(ids, n - 1);
      if n - 1 in ids {
        assert Below(ids, n) == Below(ids, n - 1) + {n - 1};
      } else {
        assert Below(ids, n) == Below(ids, n - 1);
      }
    }
  }

  /** The counters are the numbers of entries written. */
  lemma Counted(h: Hasher, s: State)
    requires Consistent(h, s)
    ensures |NewOrder(s)| == s.nNew && |TriedOrder(s)| == s.nTried
  {
    hide RandomOk, TriedOk, NewOk, RefsOk, TimesOk;
    AscendingSize(NewIds(s.info), s.nIdCount);
    AscendingSize(TriedIds(s.info), s.nIdCount);
    assert Below(NewIds(s.info), s.nIdCount) == NewIds(s.info);
    assert Below(TriedIds(s.info), s.nIdCount) == TriedIds(s.info);
    assert NewIds(s.info) - {} == NewIds(s.info);
  }

  lemma AddressOnce(h: Hasher, s: State, j: nat, k: nat)
    requires Consistent(h, s) && j < Total(s) && k < Total(s)
    ensures Src(s, j).addr.service.ip == Src(s, k).addr.service.ip ==> j == k
    ensures (&& Src(s, j).fInTried && Src(s, k).fInTried
             && TriedSlot(h, s.nKey, Src(s, j).addr.service) == TriedSlot(h, s.nKey, Src(s, k).addr.service)) ==> j == k
  {
    hide RandomOk, NewOk, RefsOk, TimesOk, CountsOk;
    OriginIs(s, j);
    OriginIs(s, k);
    if Origin(s, j) == Origin(s, k) {
      OriginOnce(s, j, k);
    }
  }

  // --- Entries come back --------------------------------------------------------------------

  /** The k-th entry as it is read. */
  function Read(s: State, k: nat): AddrInfo
    requires k < Total(s)
  {
    Load(Save(Src(s, k))).(fInTried := k >= |NewOrder(s)|, nRandomPos := k)
  }

  predicate EntriesBack(s: State, info: Infos, random: seq<int>, m: nat)
    requires m <= Total(s)
  {
    && |random| == m && (forall k | 0 <= k < m :: IdAt(random, k) == k)
    && (forall id <- info :: 0 <= id < m)
    && (forall k | 0 <= k < m :: k in info && info[k] == Read(s, k))
  }

  predicate AddressesBack(s: State, byAddr: map<NetAddr, int>, m: nat)
    requires m <= Total(s)
  {
    && (forall a <- byAddr :: 0 <= IdOf(byAddr, a) < m && Src(s, IdOf(byAddr, a)).addr.service.ip == a)
    && (forall k | 0 <= k < m :: Src(s, k).addr.service.ip in byAddr && IdOf(byAddr, Src(s, k).addr.service.ip) == k)
  }

  predicate TriedBack(h: Hasher, s: State, tried: Table, m: nat)
    requires m <= Total(s)
  {
    && (forall slot <- tried ::
          |NewOrder(s)| <= Held(tried, slot) < m &&
              slot == TriedSlot(h, s.nKey, Src(s, Held(tried, slot)).addr.service))
    && (forall k | |NewOrder(s)| <= k < m ::
          && TriedSlot(h, s.nKey, Src(s, k).addr.service) in tried
          && Held(tried, TriedSlot(h, s.nKey, Src(s, k).addr.service)) == k)
  }

  predicate LoadedUpTo(h: Hasher, s: State, t: State, m: nat)
    requires m <= Total(s)
  {
    && EntriesBack(s, t.info, t.random, m) && AddressesBack(s, t.byAddr, m) && TriedBack(h, s, t.tried, m)
    && t.newTable == map[] && t.nNew == s.nNew && t.nTried == s.nTried && t.nKey == s.nKey
  }

  lemma EntryBack(s: State, t: State, m: nat)
    requires m < Total(s) && EntriesBack(s, t.info, t.random, m)
    ensures var e := Enter(t, m, Load(Save(Src(s, m))).(fInTried := m >= |NewOrder(s)|));
            EntriesBack(s, e.info, e.random, m + 1)
  {
    var e := Enter(t, m, Load(Save(Src(s, m))).(fInTried := m >= |NewOrder(s)|));
    forall k | 0 <= k < m + 1
      ensures IdAt(e.random, k) == k
    {
      if k < m {
        assert IdAt(e.random, k) == IdAt(t.random, k);
      }
    }
  }

  lemma AddressBack(h: Hasher, s: State, byAddr: map<NetAddr, int>, m: nat)
    requires Consistent(h, s) && m < Total(s) && AddressesBack(s, byAddr, m)
    ensures AddressesBack(s, byAddr[Src(s, m).addr.service.ip := m], m + 1)
  {
    hide Inv;
    var b := byAddr[Src(s, m).addr.service.ip := m];
    forall k | 0 <= k < m
      ensures Src(s, k).addr.service.ip != Src(s, m).addr.service.ip
    {
      AddressOnce(h, s, k, m);
    }
    assert forall a <- byAddr :: a != Src(s, m).addr.service.ip ==> IdOf(b, a) == IdOf(byAddr, a);
    assert IdOf(b, Src(s, m).addr.service.ip) == m;
  }

  lemma TriedSlotFree(h: Hasher, s: State, tried: Table, m: nat)
    requires Consistent(h, s) && |NewOrder(s)| <= m < Total(s) && TriedBack(h, s, tried, m)
    ensures TriedSlot(h, s.nKey, Src(s, m).addr.service) !in tried
    ensures TriedBack(h, s, tried[TriedSlot(h, s.nKey, Src(s, m).addr.service) := m], m + 1)
  {
    hide Inv, TriedSlot;
    var slot := TriedSlot(h, s.nKey, Src(s, m).addr.service);
    forall k | |NewOrder(s)| <= k < m
      ensures TriedSlot(h, s.nKey, Src(s, k).addr.service) != slot
    {
      AddressOnce(h, s, k, m);
      OriginIs(s, k);
      OriginIs(s, m);
    }
    var b := tried[slot := m];
    assert forall x <- tried :: Held(b, x) == if x == slot then m else Held(tried, x);
    assert Held(b, slot) == m;
  }

  lemma NewEntryBack(h: Hasher, s: State, t: State, m: nat)
    requires Consistent(h, s) && m < |NewOrder(s)| && LoadedUpTo(h, s, t, m)
    ensures LoadedUpTo(h, s, Enter(t, m, Load(Save(Src(s, m)))), m + 1)
  {
    hide Inv, Ascending, TriedSlot, EntriesBack, AddressesBack;
    EntryBack(s, t, m);
    AddressBack(h, s, t.byAddr, m);
  }

  lemma TriedEntryBack(h: Hasher, s: State, t: State, m: nat)
    requires Consistent(h, s) && |NewOrder(s)| <= m < Total(s) && LoadedUpTo(h, s, t, m)
    ensures var slot := TriedSlot(h, s.nKey, Src(s, m).addr.service);
            && slot !in t.tried
            && var u := Enter(t, m, Load(Save(Src(s, m))).(fInTried := true));
            LoadedUpTo(h, s, u.(tried := t.tried[slot := m], nIdCount := m + 1), m + 1)
  {
    hide Inv, Ascending, TriedSlot, EntriesBack, AddressesBack, TriedBack;
    EntryBack(s, t, m);
    AddressBack(h, s, t.byAddr, m);
    TriedSlotFree(h, s, t.tried, m);
  }

  /** What the wire holds for a consistent state. */
  lemma WireIs(h: Hasher, s: State)
    requires Consistent(h, s) && Writable(s)
    ensures s.nNew >= 0 && s.nTried >= 0
    ensures var w := Serialized(s);
            && UsesTable(w) && Buckets(w) == NEW_BUCKETS && w.nKey == s.nKey
            && w.nNew == s.nNew == |NewOrder(s)| == |w.newEntries|
            && w.nTried == s.nTried == |TriedOrder(s)| == |w.triedEntries|
            && (forall k: nat | k < |NewOrder(s)| :: w.newEntries[k] == Save(Src(s, k)))
            && (forall k: nat | k < |TriedOrder(s)| :: w.triedEntries[k] == Save(Src(s, |NewOrder(s)| + k)))
  {
    hide RandomOk, AddrOk, TriedOk, NewOk, RefsOk, TimesOk, Ascending, BucketList;
    Counted(h, s);
    FlipTwice(NEW_BUCKETS);
    forall k: nat | k < Total(s)
      ensures Src(s, k) == s.info[Origin(s, k)]
    {
      OriginIs(s, k);
    }
  }

  lemma {:induction false} LoadNewBack(h: Hasher, s: State, w: Wire, n: nat)
    requires Consistent(h, s) && Writable(s) && s.nNew >= 0 && s.nTried >= 0 && w == Serialized(s) && n <= |NewOrder(s)|
    ensures n <= |w.newEntries| && LoadedUpTo(h, s, LoadNew(h, w, n), n)
  {
    hide Inv, Ascending, TriedSlot, HomeSlot, Serialized, Writable, UsesTable, Src, Enter, Save;
    WireIs(h, s);
    if n == 0 {
      NothingBack(h, s);
    } else {
      LoadNewBack(h, s, w, n - 1);
      NewEntryBack(h, s, LoadNew(h, w, n - 1), n - 1);
    }
  }

  lemma NothingBack(h: Hasher, s: State)
    ensures LoadedUpTo(h, s, Cleared(s.nKey).(nNew := s.nNew, nTried := s.nTried), 0)
  {
  }

  lemma {:induction false} LoadTriedBack(h: Hasher, s: State, w: Wire, n: nat)
    requires Consistent(h, s) && Writable(s) && s.nNew >= 0 && s.nTried >= 0 && w == Serialized(s)
    requires n <= |TriedOrder(s)|
    ensures w.nNew <= |w.newEntries| && n <= |w.triedEntries|
    ensures LoadedUpTo(h, s, LoadTried(h, w, n), |NewOrder(s)| + n)
    ensures LoadTried(h, w, n).nIdCount == |NewOrder(s)| + n
  {
    hide Inv, Ascending, TriedSlot, HomeSlot, LoadNew, Serialized, Writable, UsesTable, Src, LoadedUpTo, Enter,
      NewOrder, TriedOrder;
    WireIs(h, s);
    if n == 0 {
      LoadNewBack(h, s, w, |NewOrder(s)|);
      CountIrrelevant(h, s, LoadNew(h, w, |NewOrder(s)|), |NewOrder(s)|, |NewOrder(s)|);
    } else {
      LoadTriedBack(h, s, w, n - 1);
      TriedEntryBack(h, s, LoadTried(h, w, n - 1), |NewOrder(s)| + n - 1);
    }
  }

  lemma CountIrrelevant(h: Hasher, s: State, t: State, m: nat, n: nat)
    requires m <= Total(s) && LoadedUpTo(h, s, t, m)
    ensures LoadedUpTo(h, s, t.(nIdCount := n), m)
  {
  }

  // --- The new table comes back -------------------------------------------------------------

  /** The slot comes before position `i` of bucket `b` in reading order. */
  predicate Before(slot: Slot, b: nat, i: nat) {
    slot.bucket < b || (slot.bucket == b && slot.pos < i)
  }

  /** The part of the new table before (b, i) is back, with the new ids. */
  predicate TableBack(s: State, newTable: Table, b: nat, i: nat) {
    && (forall slot <- newTable ::
          && slot in s.newTable && Before(slot, b, i)
          && 0 <= Held(newTable, slot) < |NewOrder(s)|
          && IdAt(NewOrder(s), Held(newTable, slot)) == Held(s.newTable, slot))
    && (forall slot <- s.newTable :: Before(slot, b, i) ==> slot in newTable)
  }

  /** The entries read, with the references counted so far. */
  predicate Recounts(info0: Infos, info: Infos, newTable: Table) {
    && (forall id <- info :: id in info0)
    && (forall id <- info0 :: id in info && info[id] == info0[id].(nRefCount := |Refs(newTable, id)|))
  }

  predicate PartlyBack(s: State, t0: State, t: State, b: nat, i: nat) {
    && t == t0.(info := t.info, newTable := t.newTable)
    && TableBack(s, t.newTable, b, i)
    && Recounts(t0.info, t.info, t.newTable)
  }

  /** An entry has fewer references so far than it had, while one is missing. */
  lemma RoomForReference(h: Hasher, s: State, newTable: Table, b: nat, i: nat, k: nat)
    requires Consistent(h, s) && TableBack(s, newTable, b, i) && k < |NewOrder(s)|
    requires Slot(b, i) in s.newTable && Held(s.newTable, Slot(b, i)) == IdAt(NewOrder(s), k)
    ensures |Refs(newTable, k)| < NEW_BUCKETS_PER_ADDRESS && Slot(b, i) !in newTable
    ensures NewSlot(h, s.nKey, b, Src(s, k).addr.service) == Slot(b, i)
  {
    hide RandomOk, AddrOk, TriedOk, TimesOk, CountsOk, Ascending;
    var id := IdAt(NewOrder(s), k);
    OriginIs(s, k);
    var had := Refs(s.newTable, id);
    var now := Refs(newTable, k);
    forall slot | slot in now
      ensures slot in had - {Slot(b, i)}
    {
      assert slot in newTable && Held(newTable, slot) == k;
    }
    assert now <= had - {Slot(b, i)};
    assert Slot(b, i) in had;
    SubsetSize(now, had - {Slot(b, i)});
  }

  lemma {:induction false} SubsetSize<T>(a: set<T>, b: set<T>)
    requires a <= b
    ensures |a| <= |b|
    decreases |a|
  {
    if a != {} {
      var x :| x in a;
      SubsetSize(a - {x}, b - {x});
    }
  }

  lemma LinkBack(s: State, t0: State, t: State, b: nat, i: nat, k: nat)
    requires PartlyBack(s, t0, t, b, i) && k in t.info && k < |NewOrder(s)|
    requires Slot(b, i) in s.newTable && Held(s.newTable, Slot(b, i)) == IdAt(NewOrder(s), k)
    requires Slot(b, i) !in t.newTable
    ensures PartlyBack(s, t0, Linked(t, Slot(b, i), k), b, i + 1)
  {
    hide Ascending;
    var u := Linked(t, Slot(b, i), k);
    assert forall x <- t.newTable :: Held(u.newTable, x) == Held(t.newTable, x);
    assert Held(u.newTable, Slot(b, i)) == k;
    forall id | id in t0.info
      ensures u.info[id] == t0.info[id].(nRefCount := |Refs(u.newTable, id)|)
    {
      RefsWith(t.newTable, Slot(b, i), k, id);
    }
  }

  lemma {:induction false} LoadListBack(h: Hasher, s: State, w: Wire, t0: State, t: State, b: nat, i: nat)
    requires Consistent(h, s) && Writable(s) && s.nNew >= 0 && s.nTried >= 0 && w == Serialized(s)
    requires LoadedUpTo(h, s, t0, Total(s)) && PartlyBack(s, t0, t, b, 0)
    ensures PartlyBack(s, t0, LoadList(h, w, t, b, BucketList(s, b, i)), b, i)
  {
    hide Inv, Ascending, TriedSlot, NewSlot, PartlyBack;
    if i > 0 {
      LoadListBack(h, s, w, t0, t, b, i - 1);
      var front := BucketList(s, b, i - 1);
      var u := LoadList(h, w, t, b, front);
      var slot := Slot(b, i - 1);
      if slot in s.newTable {
        var k := IndexOf(NewOrder(s), Held(s.newTable, slot));
        assert BucketList(s, b, i) == front + [k] && (front + [k])[..|front|] == front &&
            IdAt(front + [k], |front|) == k;
        LoadIndexBack(h, s, w, t0, u, b, i - 1, k);
      } else {
        assert BucketList(s, b, i) == front + [] == front;
        SkipBack(s, t0, u, b, i - 1);
      }
    }
  }

  lemma SkipBack(s: State, t0: State, t: State, b: nat, i: nat)
    requires PartlyBack(s, t0, t, b, i) && Slot(b, i) !in s.newTable
    ensures PartlyBack(s, t0, t, b, i + 1)
  {
    hide Ascending, Recounts;
    forall slot | slot in s.newTable && Before(slot, b, i + 1)
      ensures Before(slot, b, i)
    {
      assert slot == Slot(slot.bucket, slot.pos);
    }
  }

  lemma LoadIndexBack(h: Hasher, s: State, w: Wire, t0: State, t: State, b: nat, i: nat, k: nat)
    requires Consistent(h, s) && Writable(s) && s.nNew >= 0 && s.nTried >= 0 && w == Serialized(s)
    requires LoadedUpTo(h, s, t0, Total(s)) && PartlyBack(s, t0, t, b, i)
    requires k < |NewOrder(s)| && Slot(b, i) in s.newTable && Held(s.newTable, Slot(b, i)) == IdAt(NewOrder(s), k)
    ensures PartlyBack(s, t0, LoadIndex(h, w, t, b, k), b, i + 1)
  {
    hide Inv, Ascending, TriedSlot, NewSlot, TriedBack, AddressesBack;
    Counted(h, s);
    FlipTwice(NEW_BUCKETS);
    RoomForReference(h, s, t.newTable, b, i, k);
    OriginIs(s, k);
    LinkBack(s, t0, t, b, i, k);
  }

  lemma {:induction false} LoadBucketsBack(h: Hasher, s: State, w: Wire, t0: State, n: nat)
    requires Consistent(h, s) && Writable(s) && s.nNew >= 0 && s.nTried >= 0 && w == Serialized(s) && n <= NEW_BUCKETS
    requires LoadedUpTo(h, s, t0, Total(s))
    ensures PartlyBack(s, t0, LoadBuckets(h, w, t0, n), n, 0)
  {
    hide Inv, Ascending, TriedSlot, NewSlot, TriedBack, AddressesBack, LoadList;
    if n == 0 {
      assert forall id <- t0.info :: Refs(map[], id) == {};
    } else {
      LoadBucketsBack(h, s, w, t0, n - 1);
      var t := LoadBuckets(h, w, t0, n - 1);
      LoadListBack(h, s, w, t0, t, n - 1, BUCKET_SIZE);
      NextBucket(h, s, t0, LoadBuckets(h, w, t0, n), n - 1);
    }
  }

  lemma NextBucket(h: Hasher, s: State, t0: State, t: State, b: nat)
    requires Consistent(h, s) && PartlyBack(s, t0, t, b, BUCKET_SIZE)
    ensures PartlyBack(s, t0, t, b + 1, 0)
  {
    hide RandomOk, AddrOk, TriedOk, TimesOk, CountsOk, RefsOk, Recounts, Ascending;
    assert forall slot <- s.newTable :: slot.pos < BUCKET_SIZE;
  }

  // --- The round trip -----------------------------------------------------------------------

  /** What is saved of an entry, and where it stands, as far as a renaming of ids can tell. */
  predicate SameEntry(a: AddrInfo, b: AddrInfo) {
    Save(a) == Save(b) && a.nRefCount == b.nRefCount && a.fInTried == b.fInTried
  }

  /** The same tables under a renaming of ids: the k-th entry of `t` is entry Origin(s, k) of `s`. */
  predicate Renamed(s: State, t: State) {
    && (forall id <- t.info :: 0 <= id < Total(s))
    && (forall k | 0 <= k < Total(s) :: k in t.info && SameEntry(Src(s, k), t.info[k]))
    && (forall slot <- t.newTable :: slot in s.newTable)
    && (forall slot <- s.newTable ::
          && slot in t.newTable && 0 <= Held(t.newTable, slot) < Total(s)
          && Origin(s, Held(t.newTable, slot)) == Held(s.newTable, slot))
    && (forall slot <- t.tried :: slot in s.tried)
    && (forall slot <- s.tried ::
          && slot in t.tried && 0 <= Held(t.tried, slot) < Total(s)
          && Origin(s, Held(t.tried, slot)) == Held(s.tried, slot))
    && t.nNew == s.nNew && t.nTried == s.nTried && t.nKey == s.nKey
  }

  /** Nothing is pruned when every new entry has a reference. */
  lemma {:induction false} PruneNothing(s: State, ids: seq<int>)
    requires forall id <- s.info :: s.info[id].fInTried || s.info[id].nRefCount != 0
    ensures Pruned(s, ids) == s
  {
    if ids != [] {
      PruneNothing(s, ids[..|ids| - 1]);
    }
  }

  /** The references of the k-th entry are those of its origin. */
  lemma SameRefs(s: State, newTable: Table, k: nat)
    requires k < Total(s) && Writable(s) && TableBack(s, newTable, NEW_BUCKETS, 0)
    requires forall slot <- s.newTable :: slot.bucket < NEW_BUCKETS
    ensures Refs(newTable, k) == Refs(s.newTable, Origin(s, k))
  {
    hide Ascending;
    forall slot | slot in s.newTable
      ensures slot in newTable && (Held(newTable, slot) == k <==> Held(s.newTable, slot) == Origin(s, k))
    {
      assert Before(slot, NEW_BUCKETS, 0);
      assert Origin(s, Held(newTable, slot)) == Held(s.newTable, slot);
      if Held(s.newTable, slot) == Origin(s, k) {
        OriginOnce(s, Held(newTable, slot), k);
      }
    }
    forall slot: Slot
      ensures slot in Refs(newTable, k) <==> slot in Refs(s.newTable, Origin(s, k))
    {
    }
  }

  /** Every entry is back with its reference count. */
  lemma EntriesRenamed(h: Hasher, s: State, t0: State, t: State, k: nat)
    requires Consistent(h, s) && Writable(s) && k < Total(s)
    requires EntriesBack(s, t0.info, t0.random, Total(s)) && PartlyBack(s, t0, t, NEW_BUCKETS, 0)
    ensures k in t.info && SameEntry(Src(s, k), t.info[k]) && t.info[k].nRandomPos == k && t.info[k].nLastTry == 0
    ensures t.info[k].fInTried == (k >= |NewOrder(s)|) && t.info[k].addr == Src(s, k).addr
    ensures t.info[k].nRefCount == |Refs(t.newTable, k)|
    ensures t.info[k].fInTried || t.info[k].nRefCount != 0
  {
    hide RandomOk, AddrOk, TriedOk, TimesOk, CountsOk, Ascending, TriedSlot, NewSlot, TableBack;
    OriginIs(s, k);
    SameRefs(s, t.newTable, k);
    assert t0.info[k] == Read(s, k);
  }

  lemma NewRenamed(h: Hasher, s: State, newTable: Table)
    requires NewOk(h, s.nKey, s.info, s.newTable) && TableBack(s, newTable, NEW_BUCKETS, 0)
    ensures forall slot <- newTable :: slot in s.newTable
    ensures forall slot <- s.newTable ::
              && slot in newTable && 0 <= Held(newTable, slot) < |NewOrder(s)|
              && Origin(s, Held(newTable, slot)) == Held(s.newTable, slot)
  {
    hide Ascending, NewSlot;
    forall slot | slot in s.newTable
      ensures slot in newTable
    {
      assert Before(slot, NEW_BUCKETS, 0);
    }
  }

  lemma RenamedAfterLoad(h: Hasher, s: State, t0: State, t: State)
    requires Consistent(h, s) && Writable(s)
    requires LoadedUpTo(h, s, t0, Total(s)) && PartlyBack(s, t0, t, NEW_BUCKETS, 0)
    ensures Renamed(s, t)
    ensures forall id <- t.info :: t.info[id].fInTried || t.info[id].nRefCount != 0
  {
    hide RandomOk, AddrOk, TriedOk, NewOk, RefsOk, TimesOk, CountsOk, Ascending, TriedSlot, NewSlot, TableBack,
      TriedBack, AddressesBack, SameEntry, Origin;
    forall k: nat | k < Total(s)
      ensures k in t.info && SameEntry(Src(s, k), t.info[k]) && (t.info[k].fInTried || t.info[k].nRefCount != 0)
    {
      EntriesRenamed(h, s, t0, t, k);
    }
    NewRenamed(h, s, t.newTable);
    TriedRenamed(h, s, t0);
  }

  lemma TriedRenamed(h: Hasher, s: State, t: State)
    requires Consistent(h, s) && TriedBack(h, s, t.tried, Total(s))
    ensures forall slot <- t.tried :: slot in s.tried
    ensures forall slot <- s.tried ::
              && slot in t.tried && 0 <= Held(t.tried, slot) < Total(s)
              && Origin(s, Held(t.tried, slot)) == Held(s.tried, slot)
  {
    hide RandomOk, NewOk, RefsOk, TimesOk, CountsOk, Ascending, TriedSlot;
    forall slot | slot in t.tried
      ensures slot in s.tried
    {
      OriginIs(s, Held(t.tried, slot));
    }
    forall slot | slot in s.tried
      ensures slot in t.tried && 0 <= Held(t.tried, slot) < Total(s)
      ensures Origin(s, Held(t.tried, slot)) == Held(s.tried, slot)
    {
      var k := OriginAll(s, Held(s.tried, slot));
      OriginIs(s, k);
      assert slot == TriedSlot(h, s.nKey, Src(s, k).addr.service);
    }
  }

  // --- The limits are never in the way ------------------------------------------------------

  function Grid(rows: nat, columns: nat): set<Slot> {
    set b: nat, p: nat | b < rows && p < columns :: Slot(b, p)
  }

  function Row(row: nat, columns: nat): set<Slot> {
    set p: nat | p < columns :: Slot(row, p)
  }

  lemma {:induction false} RowSize(row: nat, columns: nat)
    ensures |Row(row, columns)| == columns
  {
    if columns == 0 {
      assert Row(row, columns) == {};
    } else {
      RowSize(row, columns - 1);
      assert Row(row, columns) == Row(row, columns - 1) + {Slot(row, columns - 1)};
    }
  }

  lemma GridNext(rows: nat, columns: nat)
    ensures Grid(0, columns) == {} && |Grid(rows + 1, columns)| == |Grid(rows, columns)| + |Row(rows, columns)|
  {
    assert Grid(rows + 1, columns) == Grid(rows, columns) + Row(rows, columns);
    assert Grid(rows, columns) !! Row(rows, columns);
  }

  lemma OneRowMore(rows: int, columns: int)
    ensures (rows + 1) * columns == rows * columns + columns
  {
  }

  lemma {:induction false} GridSize(rows: nat, columns: nat)
    ensures |Grid(rows, columns)| == rows * columns
  {
    hide Grid, Row;
    if rows == 0 {
      GridNext(0, columns);
    } else {
      GridSize(rows - 1, columns);
      GridNext(rows - 1, columns);
      RowSize(rows - 1, columns);
      OneRowMore(rows - 1, columns);
    }
  }

  lemma Member<T>(xs: set<T>) returns (x: T)
    requires |xs| > 0
    ensures x in xs
  {
    x :| x in xs;
  }

  predicate HasSlot(t: Table, slots: set<Slot>, id: int) {
    exists slot <- t :: slot in slots && Held(t, slot) == id
  }

  /** Entries that each hold a slot of their own are no more than the slots. */
  lemma {:induction false} FitInTable(ids: set<int>, t: Table, slots: set<Slot>)
    requires forall id <- ids :: HasSlot(t, slots, id)
    ensures |ids| <= |slots|
    decreases |ids|
  {
    if |ids| > 0 {
      var id := Member(ids);
      var slot :| slot in t && slot in slots && Held(t, slot) == id;
      forall other | other in ids - {id}
        ensures HasSlot(t, slots - {slot}, other)
      {
        var x :| x in t && x in slots && Held(t, x) == other;
        assert x in slots - {slot};
      }
      FitInTable(ids - {id}, t, slots - {slot});
    }
  }

  lemma WithinLimits(h: Hasher, s: State)
    requires Consistent(h, s)
    ensures 0 <= s.nNew <= NEW_BUCKETS * BUCKET_SIZE && 0 <= s.nTried <= TRIED_BUCKETS * BUCKET_SIZE
  {
    hide RandomOk, AddrOk, TimesOk;
    GridSize(NEW_BUCKETS, BUCKET_SIZE);
    GridSize(TRIED_BUCKETS, BUCKET_SIZE);
    forall id | id in NewIds(s.info)
      ensures HasSlot(s.newTable, Grid(NEW_BUCKETS, BUCKET_SIZE), id)
    {
      var slot :| slot in Refs(s.newTable, id);
      assert slot == Slot(slot.bucket, slot.pos);
      assert slot in s.newTable && slot in Grid(NEW_BUCKETS, BUCKET_SIZE);
    }
    FitInTable(NewIds(s.info), s.newTable, Grid(NEW_BUCKETS, BUCKET_SIZE));
    forall id | id in TriedIds(s.info)
      ensures HasSlot(s.tried, Grid(TRIED_BUCKETS, BUCKET_SIZE), id)
    {
      var slot := TriedSlot(h, s.nKey, s.info[id].addr.service);
      assert slot in s.tried && slot in Grid(TRIED_BUCKETS, BUCKET_SIZE);
    }
    FitInTable(TriedIds(s.info), s.tried, Grid(TRIED_BUCKETS, BUCKET_SIZE));
    assert NewIds(s.info) - {} == NewIds(s.info);
  }

  // --- What is loaded is consistent ---------------------------------------------------------

  lemma IndexConsistent(h: Hasher, s: State, t0: State, t: State)
    requires Consistent(h, s) && Writable(s)
    requires LoadedUpTo(h, s, t0, Total(s)) && t0.nIdCount == Total(s) && PartlyBack(s, t0, t, NEW_BUCKETS, 0)
    ensures RandomOk(t.info, t.random) && AddrOk(t.info, t.byAddr, t.nIdCount)
  {
    hide Inv, Ascending, TriedSlot, NewSlot, TableBack, TriedBack, SameEntry, Origin, Read, Src, Total;
    forall k: nat | k < Total(s)
      ensures k in t.info && t.info[k].nRandomPos == k && t.info[k].addr == Src(s, k).addr
    {
      EntriesRenamed(h, s, t0, t, k);
    }
    assert t.random == t0.random && t.byAddr == t0.byAddr;
  }

  lemma TriedConsistent(h: Hasher, s: State, t0: State, t: State)
    requires Consistent(h, s) && Writable(s)
    requires LoadedUpTo(h, s, t0, Total(s)) && PartlyBack(s, t0, t, NEW_BUCKETS, 0)
    ensures TriedOk(h, t.nKey, t.info, t.tried)
  {
    hide Inv, Ascending, TriedSlot, NewSlot, TableBack, AddressesBack, SameEntry, Origin, Read, Src, Total;
    forall k: nat | k < Total(s)
      ensures k in t.info && t.info[k].addr == Src(s, k).addr && t.info[k].fInTried == (k >= |NewOrder(s)|)
    {
      EntriesRenamed(h, s, t0, t, k);
    }
    assert t.tried == t0.tried && t.nKey == s.nKey;
  }

  lemma NewConsistent(h: Hasher, s: State, t0: State, t: State)
    requires Consistent(h, s) && Writable(s)
    requires LoadedUpTo(h, s, t0, Total(s)) && PartlyBack(s, t0, t, NEW_BUCKETS, 0)
    ensures NewOk(h, t.nKey, t.info, t.newTable)
  {
    hide RandomOk, AddrOk, TriedOk, RefsOk, TimesOk, CountsOk, Ascending, NewSlot, TriedBack, TableBack,
      AddressesBack, SameEntry;
    NewRenamed(h, s, t.newTable);
    forall slot | slot in t.newTable
      ensures Held(t.newTable, slot) in t.info && !t.info[Held(t.newTable, slot)].fInTried
      ensures slot == NewSlot(h, t.nKey, slot.bucket, t.info[Held(t.newTable, slot)].addr.service)
    {
      EntriesRenamed(h, s, t0, t, Held(t.newTable, slot));
    }
  }

  lemma RefsConsistent(h: Hasher, s: State, t0: State, t: State)
    requires Consistent(h, s) && Writable(s)
    requires LoadedUpTo(h, s, t0, Total(s)) && PartlyBack(s, t0, t, NEW_BUCKETS, 0)
    ensures RefsOk(t.info, t.newTable, {}) && TimesOk(t.info)
  {
    hide RandomOk, AddrOk, TriedOk, NewOk, CountsOk, Ascending, NewSlot, TriedBack, TableBack, AddressesBack, Origin;
    forall id | id in t.info
      ensures && t.info[id].nRefCount == |Refs(t.newTable, id)| && t.info[id].nRefCount <= NEW_BUCKETS_PER_ADDRESS
              && (t.info[id].fInTried || t.info[id].nRefCount >= 1)
      ensures t.info[id].nLastTry >= 0 && t.info[id].nLastSuccess >= 0
      ensures (t.info[id].fInTried ==> t.info[id].nLastSuccess != 0)
    {
      EntriesRenamed(h, s, t0, t, id);
      OriginIs(s, id);
    }
  }

  function Range(lo: nat, hi: nat): (r: set<int>)
    requires lo <= hi
    ensures |r| == hi - lo && forall k :: k in r <==> lo <= k < hi
    decreases hi
  {
    if lo == hi then {} else Range(lo, hi - 1) + {hi - 1}
  }

  lemma CountsConsistent(h: Hasher, s: State, t0: State, t: State)
    requires Consistent(h, s) && Writable(s)
    requires LoadedUpTo(h, s, t0, Total(s)) && PartlyBack(s, t0, t, NEW_BUCKETS, 0)
    ensures CountsOk(t.info, t.nTried, t.nNew, {}, 0)
  {
    hide RandomOk, AddrOk, TriedOk, NewOk, RefsOk, TimesOk, Ascending, TriedBack, TableBack, AddressesBack, Origin;
    var n := |NewOrder(s)|;
    Counted(h, s);
    forall k: nat | k < Total(s)
      ensures k in t.info && t.info[k].fInTried == (k >= n)
    {
      EntriesRenamed(h, s, t0, t, k);
    }
    SizesFromRanges(t.info, n, Total(s));
  }

  lemma SizesFromRanges(info: Infos, n: nat, total: nat)
    requires n <= total && (forall id <- info :: 0 <= id < total)
    requires forall k: nat | k < total :: k in info && info[k].fInTried == (k >= n)
    ensures |TriedIds(info)| == total - n && |NewIds(info) - {}| == n
  {
    assert TriedIds(info) == Range(n, total);
    assert NewIds(info) - {} == Range(0, n);
  }

  /** Saving and loading any consistent address manager loses no entry and no reference: the loaded
      state is consistent, and up to a renaming of ids and the order of vRandom it is the same. */
  lemma RoundTrip(h: Hasher, s: State)
    requires Consistent(h, s)
    ensures Writable(s) && s.nNew >= 0 && s.nTried >= 0
    ensures Unserialized(h, Serialized(s)).Success?
    ensures Renamed(s, Unserialized(h, Serialized(s)).state) && Consistent(h, Unserialized(h, Serialized(s)).state)
  {
    hide RandomOk, AddrOk, TriedOk, NewOk, RefsOk, TimesOk, CountsOk, Ascending, TriedSlot, NewSlot, LoadNew, LoadTried,
         LoadBuckets, LoadedUpTo, PartlyBack, Renamed, Pruned;
    ConsistentWritable(h, s);
    WithinLimits(h, s);
    Counted(h, s);
    FlipTwice(NEW_BUCKETS);
    var w := Serialized(s);
    LoadTriedBack(h, s, w, |TriedOrder(s)|);
    var t0 := LoadTried(h, w, |TriedOrder(s)|);
    LoadBucketsBack(h, s, w, t0, NEW_BUCKETS);
    var t := LoadBuckets(h, w, t0, NEW_BUCKETS);
    RenamedAfterLoad(h, s, t0, t);
    LoadedConsistent(h, s, t0, t);
    PruneNothing(t, Ascending(t.info.Keys, t.nIdCount));
  }

  lemma LoadedConsistent(h: Hasher, s: State, t0: State, t: State)
    requires Consistent(h, s) && Writable(s)
    requires LoadedUpTo(h, s, t0, Total(s)) && t0.nIdCount == Total(s) && PartlyBack(s, t0, t, NEW_BUCKETS, 0)
    ensures Consistent(h, t)
  {
    hide RandomOk, AddrOk, TriedOk, NewOk, RefsOk, TimesOk, CountsOk, Ascending, EntriesBack, AddressesBack, TriedBack,
         TableBack, Recounts, Src, Origin, Total;
    IndexConsistent(h, s, t0, t);
    TriedConsistent(h, s, t0, t);
    NewConsistent(h, s, t0, t);
    RefsConsistent(h, s, t0, t);
    CountsConsistent(h, s, t0, t);
  }

  // --- Steps of the loops -------------------------------------------------------------------

  lemma {:induction false} AscendingPrefix(ids: set<int>, m: nat, n: nat)
    requires m <= n
    ensures Ascending(ids, m) <= Ascending(ids, n)
    decreases n
  {
    if m < n {
      AscendingPrefix(ids, m, n - 1);
    }
  }

  lemma AscendingNext(ids: set<int>, n: nat)
    ensures Ascending(ids, n + 1) == Ascending(ids, n) + if n in ids then [n] else []
  {
    assert Ascending(ids, n) + [] == Ascending(ids, n);
  }

  /** There is a position for an id that is still to come. */
  lemma StillToCome(ids: set<int>, m: nat, n: nat)
    requires m < n && m in ids
    ensures |Ascending(ids, m)| < |Ascending(ids, n)|
  {
    hide Ascending;
    AscendingNext(ids, m);
    AscendingPrefix(ids, m + 1, n);
  }

  /** An entry is written with the new ones exactly when it is one. */
  lemma ReferencedIffNew(h: Hasher, s: State, id: int)
    requires Consistent(h, s) && id in s.info
    ensures s.info[id].nRefCount != 0 <==> !s.info[id].fInTried
  {
    hide RandomOk, AddrOk, TriedOk, TimesOk, CountsOk, NewSlot;
    if s.info[id].fInTried {
      assert Refs(s.newTable, id) == {};
    }
  }

  lemma IndexOnce(xs: seq<int>, x: int, i: nat)
    requires i < |xs| && IdAt(xs, i) == x && forall j, k | 0 <= j < k < |xs| :: IdAt(xs, j) < IdAt(xs, k)
    ensures Lists(xs, x) && IndexOf(xs, x) == i
  {
  }

  lemma EnterRandomOk(s: State, id: int, i: AddrInfo)
    requires RandomOk(s.info, s.random) && id !in s.info
    ensures RandomOk(Enter(s, id, i).info, Enter(s, id, i).random)
  {
    var t := Enter(s, id, i);
    assert forall k | 0 <= k < |s.random| :: IdAt(t.random, k) == IdAt(s.random, k);
    assert IdAt(t.random, |s.random|) == id;
  }

  lemma LinkedRandomOk(s: State, slot: Slot, id: int)
    requires RandomOk(s.info, s.random) && id in s.info
    ensures RandomOk(Linked(s, slot, id).info, s.random) && Linked(s, slot, id).info.Keys == s.info.Keys
  {
  }
}
