/** The address manager's own check of its tables (`CAddrMan::Check_`), with its return codes. */
module AddrCheck {
  import opened AddrState
  import opened AddrOps
  import opened AddrMan
  import opened AddrHistory

  // --- What passes --------------------------------------------------------------------------

  /** Looking up a missing address gives, and enters, zero. */
  function Lookup(byAddr: map<NetAddr, int>, a: NetAddr): int {
    if a in byAddr then IdOf(byAddr, a) else 0
  }

  /** What is found wrong with an entry first, or zero. */
  function EntryCode(s: State, n: int): int
    requires n in s.info
  {
    var i := s.info[n];
    if i.fInTried && i.nLastSuccess == 0 then -1
    else if i.fInTried && i.nRefCount != 0 then -2
    else if !i.fInTried && (i.nRefCount < 0 || i.nRefCount > NEW_BUCKETS_PER_ADDRESS) then -3
    else if !i.fInTried && i.nRefCount == 0 then -4
    else if Lookup(s.byAddr, i.addr.service.ip) != n then -5
    else if !(0 <= i.nRandomPos < |s.random|) || IdAt(s.random, i.nRandomPos) != n then -14
    else if i.nLastTry < 0 then -6
    else if i.nLastSuccess < 0 then -8
    else 0
  }

  ghost predicate EntriesPass(s: State) {
    forall n <- s.info :: EntryCode(s, n) == 0
  }

  /** Everything consistency asks for but for the address map, of which only the addresses of entries are
      looked up. */
  ghost predicate Checked(h: Hasher, s: State) {
    && RandomOk(s.info, s.random)
    && (forall n <- s.info :: Lookup(s.byAddr, s.info[n].addr.service.ip) == n)
    && TriedOk(h, s.nKey, s.info, s.tried)
    && NewOk(h, s.nKey, s.info, s.newTable)
    && RefsOk(s.info, s.newTable, {})
    && TimesOk(s.info)
    && CountsOk(s.info, s.nTried, s.nNew, {}, 0)
    && s.nKey != 0
  }

  /** A consistent state passes, and only an inexact address map or an id beyond the counter can pass
      without being consistent. */
  lemma ConsistentIff(h: Hasher, s: State)
    ensures Consistent(h, s) <==> Checked(h, s) && AddrOk(s.info, s.byAddr, s.nIdCount)
  {
  }

  // --- Counting -----------------------------------------------------------------------------

  /** All entries have their own place in a list of that size, so no place is left over. */
  lemma PlacesFilled(s: State)
    requires EntriesPass(s) && |s.random| == |s.info|
    ensures RandomOk(s.info, s.random)
  {
    PlacesCount(s.info, s.random);
    SameInts(Places(s.info), Below(|s.random|));
    forall i | 0 <= i < |s.random|
      ensures IdAt(s.random, i) in s.info && s.info[IdAt(s.random, i)].nRandomPos == i
    {
      assert i in Below(|s.random|) && i in Places(s.info);
      var n :| n in s.info && PlaceAt(s.info, n) == i;
    }
  }

  function PlaceAt(info: Infos, n: int): int
    requires n in info
  {
    info[n].nRandomPos
  }

  function Places(info: Infos): set<int> {
    set n | n in info :: PlaceAt(info, n)
  }

  function Below(n: nat): (r: set<int>)
    ensures |r| == n && forall i: int :: i in r <==> 0 <= i < n
  {
    if n == 0 then {} else Below(n - 1) + {n - 1}
  }

  lemma {:induction false} PlacesCount(info: Infos, random: seq<int>)
    requires forall n <- info :: 0 <= PlaceAt(info, n) < |random| && IdAt(random, PlaceAt(info, n)) == n
    ensures |Places(info)| == |info| && Places(info) <= Below(|random|)
    decreases |info|
  {
    if |info| == 0 {
      assert Places(info) == {};
    } else {
      var n := AnyOf(info.Keys);
      var rest := info - {n};
      assert rest.Keys == info.Keys - {n};
      assert forall k <- rest :: PlaceAt(rest, k) == PlaceAt(info, k);
      PlacesCount(rest, random);
      PlacesWithout(info, n);
      assert PlaceAt(info, n) !in Places(rest);
    }
  }

  lemma PlacesWithout(info: Infos, n: int)
    requires n in info
    ensures Places(info) == Places(info - {n}) + {PlaceAt(info, n)}
  {
    var rest := info - {n};
    forall i | i in Places(info)
      ensures i in Places(rest) + {PlaceAt(info, n)}
    {
      var k :| k in info && PlaceAt(info, k) == i;
      assert k != n ==> k in rest && PlaceAt(rest, k) == i;
    }
    forall i | i in Places(rest)
      ensures i in Places(info)
    {
      var k :| k in rest && PlaceAt(rest, k) == i;
      assert PlaceAt(info, k) == i;
    }
  }

  lemma {:induction false} SameInts(a: set<int>, b: set<int>)
    requires a <= b && |b| <= |a|
    ensures a == b
  {
    assert |b - a| == |b| - |a|;
  }

  lemma Split(info: Infos)
    ensures |TriedIds(info)| + |NewIds(info)| == |info|
  {
    assert TriedIds(info) + NewIds(info) == info.Keys && TriedIds(info) !! NewIds(info);
  }

  // --- The tables slot by slot --------------------------------------------------------------

  predicate Earlier(slot: Slot, b: nat, p: nat) {
    slot.bucket < b || (slot.bucket == b && slot.pos < p)
  }

  /** The part of a table that the scan has passed. */
  function Part(t: Table, b: nat, p: nat): Table {
    map slot | slot in t && Earlier(slot, b, p) :: Held(t, slot)
  }

  lemma PartNext(t: Table, b: nat, p: nat)
    ensures Slot(b, p) !in Part(t, b, p)
    ensures Part(t, b, p + 1) ==
            if Slot(b, p) in t then Part(t, b, p)[Slot(b, p) := Held(t, Slot(b, p))] else Part(t, b, p)
  {
    forall slot: Slot
      ensures Earlier(slot, b, p + 1) <==> Earlier(slot, b, p) || slot == Slot(b, p)
    {
    }
  }

  lemma PartRow(t: Table, b: nat, size: nat)
    requires forall slot <- t :: slot.pos < size
    ensures Part(t, b, size) == Part(t, b + 1, 0) && Part(t, 0, 0) == map[]
  {
  }

  lemma PartAll(t: Table, buckets: nat)
    requires forall slot <- t :: slot.bucket < buckets
    ensures Part(t, buckets, 0) == t
  {
  }

  // --- The code of a slot -------------------------------------------------------------------

  ghost predicate HeldEarlier(t: Table, slot: Slot, id: int) {
    exists k <- t :: Earlier(k, slot.bucket, slot.pos) && Held(t, k) == id
  }

  /** What is found wrong with a slot of the tried table first, or zero. */
  ghost function TriedCode(h: Hasher, nKey: nat, info: Infos, t: Table, slot: Slot): int
    requires slot in t
  {
    var id := Held(t, slot);
    if id !in info || !info[id].fInTried || HeldEarlier(t, slot, id) then -11
    else if GetTriedBucket(h, nKey, info[id].addr.service) != slot.bucket then -17
    else if GetBucketPosition(h, nKey, false, slot.bucket, info[id].addr.service) != slot.pos then -18
    else 0
  }

  /** What is found wrong with a slot of the new table first, or zero. */
  ghost function NewCode(h: Hasher, nKey: nat, info: Infos, t: Table, slot: Slot): int
    requires slot in t
  {
    var id := Held(t, slot);
    if id !in info || info[id].fInTried || |Refs(Part(t, slot.bucket, slot.pos), id)| >= info[id].nRefCount then -12
    else if GetBucketPosition(h, nKey, true, slot.bucket, info[id].addr.service) != slot.pos then -19
    else 0
  }

  ghost predicate TriedPass(h: Hasher, nKey: nat, info: Infos, t: Table, b: nat, p: nat) {
    forall slot <- t :: Earlier(slot, b, p) ==> TriedCode(h, nKey, info, t, slot) == 0
  }

  ghost predicate NewPass(h: Hasher, nKey: nat, info: Infos, t: Table, b: nat, p: nat) {
    forall slot <- t :: Earlier(slot, b, p) ==> NewCode(h, nKey, info, t, slot) == 0
  }

  /** The code of the first slot, bucket by bucket, that does not pass. */
  ghost predicate TriedFaultAt(h: Hasher, nKey: nat, info: Infos, t: Table, slot: Slot, code: int) {
    && slot in t && code == TriedCode(h, nKey, info, t, slot) != 0
    && TriedPass(h, nKey, info, t, slot.bucket, slot.pos)
  }

  ghost predicate NewFaultAt(h: Hasher, nKey: nat, info: Infos, t: Table, slot: Slot, code: int) {
    && slot in t && code == NewCode(h, nKey, info, t, slot) != 0
    && NewPass(h, nKey, info, t, slot.bucket, slot.pos)
  }

  ghost predicate Placed(t: Table, id: int) {
    exists slot <- t :: Held(t, slot) == id
  }

  lemma TriedPassNext(h: Hasher, nKey: nat, info: Infos, t: Table, b: nat, p: nat)
    requires TriedPass(h, nKey, info, t, b, p)
    requires Slot(b, p) in t ==> TriedCode(h, nKey, info, t, Slot(b, p)) == 0
    ensures TriedPass(h, nKey, info, t, b, p + 1)
  {
    hide TriedCode;
    forall slot | slot in t && Earlier(slot, b, p + 1)
      ensures TriedCode(h, nKey, info, t, slot) == 0
    {
      assert Earlier(slot, b, p) || slot == Slot(b, p);
    }
  }

  lemma NewPassNext(h: Hasher, nKey: nat, info: Infos, t: Table, b: nat, p: nat)
    requires NewPass(h, nKey, info, t, b, p)
    requires Slot(b, p) in t ==> NewCode(h, nKey, info, t, Slot(b, p)) == 0
    ensures NewPass(h, nKey, info, t, b, p + 1)
  {
    hide NewCode;
    forall slot | slot in t && Earlier(slot, b, p + 1)
      ensures NewCode(h, nKey, info, t, slot) == 0
    {
      assert Earlier(slot, b, p) || slot == Slot(b, p);
    }
  }

  /** From the end of a bucket to the start of the next. */
  lemma PassRow(h: Hasher, nKey: nat, info: Infos, t: Table, b: nat, size: nat)
    requires forall slot <- t :: slot.pos < size
    ensures TriedPass(h, nKey, info, t, b, size) ==> TriedPass(h, nKey, info, t, b + 1, 0)
    ensures NewPass(h, nKey, info, t, b, size) ==> NewPass(h, nKey, info, t, b + 1, 0)
    ensures TriedPass(h, nKey, info, t, 0, 0) && NewPass(h, nKey, info, t, 0, 0)
  {
    hide TriedCode, NewCode;
  }

  // --- The tried table ----------------------------------------------------------------------

  ghost predicate TriedSeen(h: Hasher, s: State, done: Table, left: set<int>) {
    && (forall slot <- done ::
          && Held(done, slot) in s.info && s.info[Held(done, slot)].fInTried
          && slot == TriedSlot(h, s.nKey, s.info[Held(done, slot)].addr.service))
    && (forall id: int :: id in left <==> id in TriedIds(s.info) && forall slot <- done :: Held(done, slot) != id)
  }

  predicate TriedSlotOk(h: Hasher, s: State, slot: Slot, id: int, left: set<int>) {
    id in left && id in s.info && slot == TriedSlot(h, s.nKey, s.info[id].addr.service)
  }

  lemma TriedStep(h: Hasher, s: State, done: Table, left: set<int>, slot: Slot, id: int)
    requires TriedSeen(h, s, done, left) && slot !in done && TriedSlotOk(h, s, slot, id, left)
    ensures TriedSeen(h, s, done[slot := id], left - {id})
  {
    hide TriedSlot;
    var more := done[slot := id];
    assert forall k <- done :: Held(more, k) == Held(done, k);
    assert Held(more, slot) == id;
  }

  /** What the scan rejects breaks the table: no such tried entry, an entry met before, or a wrong slot. */
  lemma TriedFails(h: Hasher, s: State, b: nat, p: nat, left: set<int>)
    requires TriedSeen(h, s, Part(s.tried, b, p), left) && Slot(b, p) in s.tried
    requires !TriedSlotOk(h, s, Slot(b, p), Held(s.tried, Slot(b, p)), left)
    ensures !TriedOk(h, s.nKey, s.info, s.tried)
  {
    hide TriedSlot;
    var done := Part(s.tried, b, p);
    PartNext(s.tried, b, p);
    assert forall slot <- done :: slot in s.tried && Held(done, slot) == Held(s.tried, slot);
  }

  lemma TriedEnds(h: Hasher, s: State, left: set<int>)
    requires TriedSeen(h, s, s.tried, left)
    ensures left == {} <==> TriedOk(h, s.nKey, s.info, s.tried)
  {
    hide TriedSlot;
    if left == {} {
      forall id | id in s.info && s.info[id].fInTried
        ensures TriedSlot(h, s.nKey, s.info[id].addr.service) in s.tried
        ensures Held(s.tried, TriedSlot(h, s.nKey, s.info[id].addr.service)) == id
      {
        assert id in TriedIds(s.info) && id !in left;
      }
    } else {
      var id := AnyOf(left);
      assert id in TriedIds(s.info) && forall slot <- s.tried :: Held(s.tried, slot) != id;
    }
  }

  lemma {:induction false} SameCount(a: set<int>, b: set<int>)
    requires forall x: int :: x in a <==> x in b
    ensures |a| == |b|
    decreases |a|
  {
    if |a| > 0 {
      var x := AnyOf(a);
      SameCount(a - {x}, b - {x});
    } else if |b| > 0 {
      var x := AnyOf(b);
    }
  }

  lemma AnyOf<T>(xs: set<T>) returns (x: T)
    requires |xs| > 0
    ensures x in xs
  {
    x :| x in xs;
  }

  // --- The new table ------------------------------------------------------------------------

  function LeftOf(left: map<int, int>, id: int): int
    requires id in left
  {
    left[id]
  }

  ghost predicate NewSeen(h: Hasher, s: State, done: Table, left: map<int, int>) {
    && (forall slot <- done ::
          && Held(done, slot) in s.info && !s.info[Held(done, slot)].fInTried
          && slot == NewSlot(h, s.nKey, slot.bucket, s.info[Held(done, slot)].addr.service))
    && (forall id <- NewIds(s.info) :: |Refs(done, id)| <= s.info[id].nRefCount)
    && (forall id: int :: id in left <==> id in NewIds(s.info) && |Refs(done, id)| < s.info[id].nRefCount)
    && (forall id <- left :: LeftOf(left, id) == s.info[id].nRefCount - |Refs(done, id)|)
  }

  /** One reference less to come. */
  function Less(left: map<int, int>, id: int): map<int, int>
    requires id in left
  {
    if LeftOf(left, id) == 1 then left - {id} else left[id := LeftOf(left, id) - 1]
  }

  predicate NewSlotOk(h: Hasher, s: State, slot: Slot, id: int, left: map<int, int>) {
    id in left && id in s.info && slot == NewSlot(h, s.nKey, slot.bucket, s.info[id].addr.service)
  }

  lemma NewStep(h: Hasher, s: State, done: Table, left: map<int, int>, slot: Slot, id: int)
    requires NewSeen(h, s, done, left) && slot !in done && NewSlotOk(h, s, slot, id, left)
    ensures NewSeen(h, s, done[slot := id], Less(left, id))
  {
    hide NewSlot, Refs;
    var more := done[slot := id];
    assert forall k <- done :: Held(more, k) == Held(done, k);
    assert Held(more, slot) == id;
    forall i: int
      ensures |Refs(more, i)| == |Refs(done, i)| + if i == id then 1 else 0
    {
      RefsWith(done, slot, id, i);
    }
    LessIs(left, id);
  }

  lemma LessIs(left: map<int, int>, id: int)
    requires id in left
    ensures forall i: int :: i in Less(left, id) <==> i in left && (i != id || LeftOf(left, id) != 1)
    ensures forall i <- Less(left, id) :: LeftOf(Less(left, id), i) == LeftOf(left, i) - if i == id then 1 else 0
  {
  }

  /** What the scan rejects breaks the table: no new entry, one with more references than it counts, or a
      wrong position. */
  lemma NewFails(h: Hasher, s: State, b: nat, p: nat, left: map<int, int>)
    requires NewSeen(h, s, Part(s.newTable, b, p), left) && Slot(b, p) in s.newTable
    requires !NewSlotOk(h, s, Slot(b, p), Held(s.newTable, Slot(b, p)), left)
    ensures !(NewOk(h, s.nKey, s.info, s.newTable) && RefsOk(s.info, s.newTable, {}))
  {
    hide NewSlot, Refs;
    var slot, id, done := Slot(b, p), Held(s.newTable, Slot(b, p)), Part(s.newTable, b, p);
    if NewOk(h, s.nKey, s.info, s.newTable) && RefsOk(s.info, s.newTable, {}) {
      assert id in NewIds(s.info) && |Refs(done, id)| == s.info[id].nRefCount;
      PartNext(s.newTable, b, p);
      RefsWith(done, slot, id, id);
      PartRefs(s.newTable, b, p + 1, id);
    }
  }

  lemma PartRefs(t: Table, b: nat, p: nat, id: int)
    ensures |Refs(Part(t, b, p), id)| <= |Refs(t, id)|
  {
    var some, all := Refs(Part(t, b, p), id), Refs(t, id);
    assert forall slot <- Part(t, b, p) :: Held(Part(t, b, p), slot) == Held(t, slot);
    assert some <= all;
    assert all == some + (all - some);
  }

  lemma NewEnds(h: Hasher, s: State, left: map<int, int>)
    requires NewSeen(h, s, s.newTable, left) && EntriesPass(s)
    requires (forall slot <- s.newTable :: slot.bucket < NEW_BUCKETS)
    ensures left == map[] <==> NewOk(h, s.nKey, s.info, s.newTable) && RefsOk(s.info, s.newTable, {})
  {
    hide NewSlot;
    forall id | id in s.info && s.info[id].fInTried
      ensures |Refs(s.newTable, id)| == 0
    {
      assert Refs(s.newTable, id) == {};
    }
    forall id | id in s.info
      ensures EntryCode(s, id) == 0
    {
    }
    if left == map[] {
      forall id | id in s.info && !s.info[id].fInTried
        ensures s.info[id].nRefCount == |Refs(s.newTable, id)|
      {
        assert id in NewIds(s.info) && id !in left;
      }
    } else {
      var id := AnyOf(left.Keys);
      assert id in left && |Refs(s.newTable, id)| < s.info[id].nRefCount;
    }
  }

  // --- Check_ -------------------------------------------------------------------------------

  /** Entries that pass are counted among the tried or the new ones. */
  ghost predicate Sorted(s: State, seen: set<int>, setTried: set<int>, mapNew: map<int, int>) {
    && (forall id: int :: id in setTried <==> id in TriedIds(s.info) && id in seen)
    && (forall id: int :: id in mapNew <==> id in NewIds(s.info) && id in seen)
    && (forall id <- mapNew :: LeftOf(mapNew, id) == s.info[id].nRefCount)
  }

  /** The addresses looked up so far are entered, missing ones with zero. */
  ghost predicate LookedUp(before: map<NetAddr, int>, after: map<NetAddr, int>) {
    && (forall a <- before :: a in after && IdOf(after, a) == IdOf(before, a))
    && (forall a <- after :: a !in before ==> IdOf(after, a) == 0)
  }

  /** The code of the first entry, by id, that does not pass. */
  ghost predicate FirstFault(s: State, code: int) {
    exists n :: FaultAt(s, n, code)
  }

  ghost predicate FaultAt(s: State, n: int, code: int) {
    n in s.info && code == EntryCode(s, n) != 0 && forall k <- s.info :: k < n ==> EntryCode(s, k) == 0
  }

  /** Maps are walked in the order of their keys. */
  method Least(todo: set<int>) returns (n: int)
    requires |todo| > 0
    ensures n in todo && forall k <- todo :: n <= k
  {
    var rest := todo;
    ghost var some := AnyOf(rest);
    assert some in rest;
    n :| n in rest;
    rest := rest - {n};
    while |rest| > 0
      invariant rest <= todo && n in todo && forall k <- todo :: k in rest || n <= k
      decreases |rest|
    {
      some := AnyOf(rest);
      assert some in rest;
      var k :| k in rest;
      if k < n {
        n := k;
      }
      rest := rest - {k};
    }
  }

  /** The first loop: every entry by itself. */
  method CheckEntries(m: CAddrMan) returns (code: int, setTried: set<int>, mapNew: map<int, int>)
    modifies m`mapAddr
    ensures LookedUp(old(m.mapAddr), m.mapAddr)
    ensures code == 0 <==> EntriesPass(old(m.View()))
    ensures code != 0 ==> FirstFault(old(m.View()), code)
    ensures code == 0 ==> Sorted(old(m.View()), m.mapInfo.Keys, setTried, mapNew)
  {
    hide TableOf, TriedIds, NewIds;
    ghost var s := m.View();
    setTried, mapNew := {}, map[];
    var todo := m.mapInfo.Keys;
    NothingSorted(s);
    while |todo| > 0
      invariant todo <= m.mapInfo.Keys && LookedUp(s.byAddr, m.mapAddr)
      invariant forall k: int | k in s.info && k !in todo :: EntryCode(s, k) == 0 && forall n <- todo :: k < n
      invariant Sorted(s, m.mapInfo.Keys - todo, setTried, mapNew)
      decreases |todo|
    {
      var n := Least(todo);
      var info := m.mapInfo[n];
      code := CheckEntry(m, n);
      if code != 0 {
        assert FaultAt(s, n, code);
        return;
      }
      SortedNext(s, m.mapInfo.Keys, todo, setTried, mapNew, n);
      if info.fInTried {
        setTried := setTried + {n};
      } else {
        mapNew := mapNew[n := info.nRefCount];
      }
      todo := todo - {n};
    }
    code := 0;
    NoneLeft(m.mapInfo.Keys, todo);
  }

  method CheckEntry(m: CAddrMan, n: int) returns (code: int)
    requires n in m.mapInfo
    modifies m`mapAddr
    ensures LookedUp(old(m.mapAddr), m.mapAddr)
    ensures forall before: map<NetAddr, int> | LookedUp(before, old(m.mapAddr)) ::
              LookedUp(before, m.mapAddr) && code == EntryCode(old(m.View()).(byAddr := before), n)
  {
    var info := m.mapInfo[n];
    if info.fInTried {
      if info.nLastSuccess == 0 {
        return -1;
      }
      if info.nRefCount != 0 {
        return -2;
      }
    } else {
      if info.nRefCount < 0 || info.nRefCount > NEW_BUCKETS_PER_ADDRESS {
        return -3;
      }
      if info.nRefCount == 0 {
        return -4;
      }
    }
    if info.addr.service.ip !in m.mapAddr {
      m.mapAddr := m.mapAddr[info.addr.service.ip := 0];
    }
    if IdOf(m.mapAddr, info.addr.service.ip) != n {
      return -5;
    }
    if info.nRandomPos < 0 || info.nRandomPos >= |m.vRandom| || IdAt(m.vRandom, info.nRandomPos) != n {
      return -14;
    }
    if info.nLastTry < 0 {
      return -6;
    }
    if info.nLastSuccess < 0 {
      return -8;
    }
    return 0;
  }

  lemma NothingSorted(s: State)
    ensures Sorted(s, s.info.Keys - s.info.Keys, {}, map[])
  {
  }

  lemma SortedNext(s: State, all: set<int>, todo: set<int>, setTried: set<int>, mapNew: map<int, int>, n: int)
    requires Sorted(s, all - todo, setTried, mapNew) && n in todo && todo <= all == s.info.Keys
    ensures var seen := all - (todo - {n});
            if s.info[n].fInTried then Sorted(s, seen, setTried + {n}, mapNew)
            else Sorted(s, seen, setTried, mapNew[n := s.info[n].nRefCount])
  {
    var more := mapNew[n := s.info[n].nRefCount];
    assert forall id <- mapNew :: id != n ==> LeftOf(more, id) == LeftOf(mapNew, id);
    assert LeftOf(more, n) == s.info[n].nRefCount;
  }

  lemma NoneLeft(all: set<int>, todo: set<int>)
    requires |todo| == 0
    ensures todo == {} && all - todo == all
  {
  }

  /** The second loop: every slot of the tried table holds a tried entry that belongs there, and each once. */
  method CheckTried(m: CAddrMan, setTried: set<int>) returns (code: int, left: set<int>)
    requires m.Shaped() && TriedSeen(m.h, m.View(), map[], setTried)
    ensures code == 0 ==> TriedSeen(m.h, m.View(), m.View().tried, left)
    ensures code == 0 ==> TriedPass(m.h, m.nKey, m.mapInfo, m.View().tried, TRIED_BUCKETS, 0)
    ensures code != 0 ==> !TriedOk(m.h, m.nKey, m.mapInfo, m.View().tried)
    ensures code != 0 ==> exists slot :: TriedFaultAt(m.h, m.nKey, m.mapInfo, m.View().tried, slot, code)
  {
    hide TableOf, TriedSeen, TriedOk, Part, TriedPass, TriedFaultAt;
    ghost var s := m.View();
    left := setTried;
    InTable(m.vvTried);
    PartRow(s.tried, 0, BUCKET_SIZE);
    PassRow(m.h, s.nKey, s.info, s.tried, 0, BUCKET_SIZE);
    for n := 0 to TRIED_BUCKETS
      invariant TriedSeen(m.h, s, Part(s.tried, n, 0), left)
      invariant TriedPass(m.h, s.nKey, s.info, s.tried, n, 0)
    {
      code, left := CheckTriedBucket(m, n, left);
      if code != 0 {
        return;
      }
      PartRow(s.tried, n, BUCKET_SIZE);
      PassRow(m.h, s.nKey, s.info, s.tried, n, BUCKET_SIZE);
    }
    PartAll(s.tried, TRIED_BUCKETS);
    code := 0;
  }

  method CheckTriedBucket(m: CAddrMan, n: nat, setTried: set<int>) returns (code: int, left: set<int>)
    requires m.Shaped() && n < TRIED_BUCKETS && TriedSeen(m.h, m.View(), Part(m.View().tried, n, 0), setTried)
    requires TriedPass(m.h, m.nKey, m.mapInfo, m.View().tried, n, 0)
    ensures code == 0 ==> TriedSeen(m.h, m.View(), Part(m.View().tried, n, BUCKET_SIZE), left)
    ensures code == 0 ==> TriedPass(m.h, m.nKey, m.mapInfo, m.View().tried, n, BUCKET_SIZE)
    ensures code != 0 ==> !TriedOk(m.h, m.nKey, m.mapInfo, m.View().tried)
    ensures code != 0 ==> exists slot :: TriedFaultAt(m.h, m.nKey, m.mapInfo, m.View().tried, slot, code)
  {
    hide TableOf, TriedSeen, TriedOk, Part, TriedPass, TriedFaultAt, TriedCode;
    ghost var s := m.View();
    left := setTried;
    for i := 0 to BUCKET_SIZE
      invariant TriedSeen(m.h, s, Part(s.tried, n, i), left)
      invariant TriedPass(m.h, s.nKey, s.info, s.tried, n, i)
    {
      var id := m.vvTried[n, i];
      TableAt(m.vvTried, n, i);
      PartNext(s.tried, n, i);
      if id != -1 {
        TriedCodeIs(m.h, s, n, i, left);
        if id !in left {
          TriedFails(m.h, s, n, i, left);
          return -11, left;
        }
        SeenTried(m.h, s, Part(s.tried, n, i), left, id);
        if GetTriedBucket(m.h, m.nKey, m.mapInfo[id].addr.service) != n {
          TriedFails(m.h, s, n, i, left);
          return -17, left;
        }
        if GetBucketPosition(m.h, m.nKey, false, n, m.mapInfo[id].addr.service) != i {
          TriedFails(m.h, s, n, i, left);
          return -18, left;
        }
        TriedStep(m.h, s, Part(s.tried, n, i), left, Slot(n, i), id);
        left := left - {id};
      }
      TriedPassNext(m.h, s.nKey, s.info, s.tried, n, i);
    }
    code := 0;
  }

  /** The scan finds out the code of a slot from the ids it has left. */
  lemma TriedCodeIs(h: Hasher, s: State, b: nat, p: nat, left: set<int>)
    requires TriedSeen(h, s, Part(s.tried, b, p), left) && Slot(b, p) in s.tried
    requires TriedPass(h, s.nKey, s.info, s.tried, b, p)
    ensures var slot, id := Slot(b, p), Held(s.tried, Slot(b, p));
            && (id in left ==> id in s.info)
            && TriedCode(h, s.nKey, s.info, s.tried, slot) ==
               (if id !in left then -11
                else if GetTriedBucket(h, s.nKey, s.info[id].addr.service) != b then -17
                else if GetBucketPosition(h, s.nKey, false, b, s.info[id].addr.service) != p then -18
                else 0)
    ensures var code := TriedCode(h, s.nKey, s.info, s.tried, Slot(b, p));
            code != 0 ==> TriedFaultAt(h, s.nKey, s.info, s.tried, Slot(b, p), code)
  {
    hide GetTriedBucket, GetBucketPosition, TriedPass, TriedSlot;
    var done, id := Part(s.tried, b, p), Held(s.tried, Slot(b, p));
    assert forall k <- done :: k in s.tried && Earlier(k, b, p) && Held(done, k) == Held(s.tried, k);
    assert forall k <- s.tried :: Earlier(k, b, p) ==> k in done;
    assert HeldEarlier(s.tried, Slot(b, p), id) <==> exists k <- done :: Held(done, k) == id;
  }

  lemma SeenTried(h: Hasher, s: State, done: Table, left: set<int>, id: int)
    requires TriedSeen(h, s, done, left) && id in left
    ensures id in s.info
  {
  }

  lemma InTable(a: array2<int>)
    ensures forall slot <- TableOf(a) :: slot.bucket < a.Length0 && slot.pos < a.Length1
  {
  }

  /** The third loop: every slot of the new table holds a new entry at its position, each as often as it
      counts. */
  method CheckNew(m: CAddrMan, mapNew: map<int, int>) returns (code: int, left: map<int, int>)
    requires m.Shaped() && NewSeen(m.h, m.View(), map[], mapNew)
    ensures code == 0 ==> NewSeen(m.h, m.View(), m.View().newTable, left)
    ensures code == 0 ==> NewPass(m.h, m.nKey, m.mapInfo, m.View().newTable, NEW_BUCKETS, 0)
    ensures code != 0 ==>
              !(NewOk(m.h, m.nKey, m.mapInfo, m.View().newTable) && RefsOk(m.mapInfo, m.View().newTable, {}))
    ensures code != 0 ==> exists slot :: NewFaultAt(m.h, m.nKey, m.mapInfo, m.View().newTable, slot, code)
  {
    hide TableOf, NewSeen, NewOk, RefsOk, Part, NewPass, NewFaultAt;
    ghost var s := m.View();
    left := mapNew;
    InTable(m.vvNew);
    PartRow(s.newTable, 0, BUCKET_SIZE);
    PassRow(m.h, s.nKey, s.info, s.newTable, 0, BUCKET_SIZE);
    for n := 0 to NEW_BUCKETS
      invariant NewSeen(m.h, s, Part(s.newTable, n, 0), left)
      invariant NewPass(m.h, s.nKey, s.info, s.newTable, n, 0)
    {
      code, left := CheckNewBucket(m, n, left);
      if code != 0 {
        return;
      }
      PartRow(s.newTable, n, BUCKET_SIZE);
      PassRow(m.h, s.nKey, s.info, s.newTable, n, BUCKET_SIZE);
    }
    PartAll(s.newTable, NEW_BUCKETS);
    code := 0;
  }

  method CheckNewBucket(m: CAddrMan, n: nat, mapNew: map<int, int>) returns (code: int, left: map<int, int>)
    requires m.Shaped() && n < NEW_BUCKETS && NewSeen(m.h, m.View(), Part(m.View().newTable, n, 0), mapNew)
    requires NewPass(m.h, m.nKey, m.mapInfo, m.View().newTable, n, 0)
    ensures code == 0 ==> NewSeen(m.h, m.View(), Part(m.View().newTable, n, BUCKET_SIZE), left)
    ensures code == 0 ==> NewPass(m.h, m.nKey, m.mapInfo, m.View().newTable, n, BUCKET_SIZE)
    ensures code != 0 ==>
              !(NewOk(m.h, m.nKey, m.mapInfo, m.View().newTable) && RefsOk(m.mapInfo, m.View().newTable, {}))
    ensures code != 0 ==> exists slot :: NewFaultAt(m.h, m.nKey, m.mapInfo, m.View().newTable, slot, code)
  {
    hide TableOf, NewSeen, NewOk, RefsOk, Part, NewPass, NewFaultAt, NewCode;
    ghost var s := m.View();
    left := mapNew;
    for i := 0 to BUCKET_SIZE
      invariant NewSeen(m.h, s, Part(s.newTable, n, i), left)
      invariant NewPass(m.h, s.nKey, s.info, s.newTable, n, i)
    {
      var id := m.vvNew[n, i];
      TableAt(m.vvNew, n, i);
      PartNext(s.newTable, n, i);
      if id != -1 {
        NewCodeIs(m.h, s, n, i, left);
        if id !in left {
          NewFails(m.h, s, n, i, left);
          return -12, left;
        }
        SeenNew(m.h, s, Part(s.newTable, n, i), left, id);
        if GetBucketPosition(m.h, m.nKey, true, n, m.mapInfo[id].addr.service) != i {
          NewFails(m.h, s, n, i, left);
          return -19, left;
        }
        NewStep(m.h, s, Part(s.newTable, n, i), left, Slot(n, i), id);
        left := Less(left, id);
      }
      NewPassNext(m.h, s.nKey, s.info, s.newTable, n, i);
    }
    code := 0;
  }

  /** The scan finds out the code of a slot from the references it has left. */
  lemma NewCodeIs(h: Hasher, s: State, b: nat, p: nat, left: map<int, int>)
    requires NewSeen(h, s, Part(s.newTable, b, p), left) && Slot(b, p) in s.newTable
    requires NewPass(h, s.nKey, s.info, s.newTable, b, p)
    ensures var slot, id := Slot(b, p), Held(s.newTable, Slot(b, p));
            && (id in left ==> id in s.info)
            && NewCode(h, s.nKey, s.info, s.newTable, slot) ==
               (if id !in left then -12
                else if GetBucketPosition(h, s.nKey, true, b, s.info[id].addr.service) != p then -19
                else 0)
    ensures var code := NewCode(h, s.nKey, s.info, s.newTable, Slot(b, p));
            code != 0 ==> NewFaultAt(h, s.nKey, s.info, s.newTable, Slot(b, p), code)
  {
    hide GetBucketPosition, NewPass, NewSlot, Refs, Part;
    var id := Held(s.newTable, Slot(b, p));
    assert id in NewIds(s.info) <==> id in s.info && !s.info[id].fInTried;
  }

  lemma SeenNew(h: Hasher, s: State, done: Table, left: map<int, int>, id: int)
    requires NewSeen(h, s, done, left) && id in left
    ensures id in s.info
  {
  }

  /** What the check reports: the first fault in the order in which it looks. */
  ghost predicate Reported(h: Hasher, s: State, code: int) {
    if |s.random| != s.nTried + s.nNew then code == -7
    else if !EntriesPass(s) then FirstFault(s, code)
    else if |TriedIds(s.info)| != s.nTried then code == -9
    else if |NewIds(s.info)| != s.nNew then code == -10
    else if !TriedPass(h, s.nKey, s.info, s.tried, TRIED_BUCKETS, 0) then
      exists slot :: TriedFaultAt(h, s.nKey, s.info, s.tried, slot, code)
    else if !NewPass(h, s.nKey, s.info, s.newTable, NEW_BUCKETS, 0) then
      exists slot :: NewFaultAt(h, s.nKey, s.info, s.newTable, slot, code)
    else if exists id <- TriedIds(s.info) :: !Placed(s.tried, id) then code == -13
    else if exists id <- NewIds(s.info) :: |Refs(s.newTable, id)| != s.info[id].nRefCount then code == -15
    else if s.nKey == 0 then code == -16
    else code == 0
  }

  /** Every state has at most one report. */
  lemma OneReport(h: Hasher, s: State, c: int, d: int)
    requires Reported(h, s, c) && Reported(h, s, d)
    ensures c == d
  {
    hide EntryCode, TriedCode, NewCode, TriedPass, NewPass, Placed, Refs, TriedIds, NewIds, EntriesPass;
    if |s.random| == s.nTried + s.nNew {
      if !EntriesPass(s) {
        var m, n :| FaultAt(s, m, c) && FaultAt(s, n, d);
        assert m == n;
      } else if |TriedIds(s.info)| == s.nTried && |NewIds(s.info)| == s.nNew {
        if !TriedPass(h, s.nKey, s.info, s.tried, TRIED_BUCKETS, 0) {
          OneTriedFault(h, s, c, d);
        } else if !NewPass(h, s.nKey, s.info, s.newTable, NEW_BUCKETS, 0) {
          OneNewFault(h, s, c, d);
        }
      }
    }
  }

  lemma OneTriedFault(h: Hasher, s: State, c: int, d: int)
    requires exists slot :: TriedFaultAt(h, s.nKey, s.info, s.tried, slot, c)
    requires exists slot :: TriedFaultAt(h, s.nKey, s.info, s.tried, slot, d)
    ensures c == d
  {
    hide TriedCode;
    var a :| TriedFaultAt(h, s.nKey, s.info, s.tried, a, c);
    var b :| TriedFaultAt(h, s.nKey, s.info, s.tried, b, d);
    assert Earlier(a, b.bucket, b.pos) || Earlier(b, a.bucket, a.pos) || a == b;
  }

  lemma OneNewFault(h: Hasher, s: State, c: int, d: int)
    requires exists slot :: NewFaultAt(h, s.nKey, s.info, s.newTable, slot, c)
    requires exists slot :: NewFaultAt(h, s.nKey, s.info, s.newTable, slot, d)
    ensures c == d
  {
    hide NewCode;
    var a :| NewFaultAt(h, s.nKey, s.info, s.newTable, a, c);
    var b :| NewFaultAt(h, s.nKey, s.info, s.newTable, b, d);
    assert Earlier(a, b.bucket, b.pos) || Earlier(b, a.bucket, a.pos) || a == b;
  }

  /** The check passes exactly the states that are `Checked`, consistent ones among them, and otherwise reports
      the first fault. */
  method Check_(m: CAddrMan) returns (code: int)
    requires m.Shaped()
    modifies m`mapAddr
    ensures LookedUp(old(m.mapAddr), m.mapAddr)
    ensures code == 0 <==> Checked(m.h, old(m.View()))
    ensures old(m.Valid()) ==> code == 0
    ensures Reported(m.h, old(m.View()), code)
  {
    hide TableOf, TriedSeen, NewSeen, Checked, Sorted, LookedUp, FirstFault, EntriesPass, Consistent, TriedPass,
         NewPass, TriedFaultAt, NewFaultAt, Placed, Refs, TriedIds, NewIds;
    ghost var s := m.View();
    ConsistentIff(m.h, s);
    CheckedSizes(m.h, s);
    NoneLookedUp(m.mapAddr);
    if |m.vRandom| != m.nTried + m.nNew {
      return -7;
    }
    var setTried, mapNew;
    code, setTried, mapNew := CheckEntries(m);
    if code != 0 {
      return;
    }
    SortedSizes(m.h, s, setTried, mapNew);
    if |setTried| != m.nTried {
      return -9;
    }
    if |mapNew| != m.nNew {
      return -10;
    }
    SeenElsewhere(m.h, s, m.mapAddr, setTried, mapNew);
    InTable(m.vvTried);
    InTable(m.vvNew);
    code, setTried := CheckTried(m, setTried);
    if code != 0 {
      CheckedTables(m.h, s);
      TriedFaultFails(m.h, s, code);
      return;
    }
    code, mapNew := CheckNew(m, mapNew);
    if code != 0 {
      CheckedTables(m.h, s);
      NewFaultFails(m.h, s, code);
      return;
    }
    SeenBack(m.h, s, m.mapAddr, setTried, mapNew);
    AllSeen(m.h, s, setTried, mapNew);
    LeftOver(m.h, s, setTried, mapNew);
    if |setTried| != 0 {
      return -13;
    }
    if |mapNew| != 0 {
      return -15;
    }
    if m.nKey == 0 {
      return -16;
    }
    return 0;
  }

  lemma TriedFaultFails(h: Hasher, s: State, code: int)
    requires exists slot :: TriedFaultAt(h, s.nKey, s.info, s.tried, slot, code)
    requires forall slot <- s.tried :: slot.bucket < TRIED_BUCKETS
    ensures !TriedPass(h, s.nKey, s.info, s.tried, TRIED_BUCKETS, 0)
  {
    hide TriedCode;
    var slot :| TriedFaultAt(h, s.nKey, s.info, s.tried, slot, code);
    assert Earlier(slot, TRIED_BUCKETS, 0);
  }

  lemma NewFaultFails(h: Hasher, s: State, code: int)
    requires exists slot :: NewFaultAt(h, s.nKey, s.info, s.newTable, slot, code)
    requires forall slot <- s.newTable :: slot.bucket < NEW_BUCKETS
    ensures !NewPass(h, s.nKey, s.info, s.newTable, NEW_BUCKETS, 0)
  {
    hide NewCode;
    var slot :| NewFaultAt(h, s.nKey, s.info, s.newTable, slot, code);
    assert Earlier(slot, NEW_BUCKETS, 0);
  }

  /** What the scans leave over is not in the tables as it should be. */
  lemma LeftOver(h: Hasher, s: State, setTried: set<int>, mapNew: map<int, int>)
    requires TriedSeen(h, s, s.tried, setTried) && NewSeen(h, s, s.newTable, mapNew)
    ensures |setTried| == 0 <==> !exists id <- TriedIds(s.info) :: !Placed(s.tried, id)
    ensures |mapNew| == 0 <==> !exists id <- NewIds(s.info) :: |Refs(s.newTable, id)| != s.info[id].nRefCount
  {
    hide TriedSlot, NewSlot, Refs;
    if |setTried| > 0 {
      var id := AnyOf(setTried);
      assert id in TriedIds(s.info) && !Placed(s.tried, id);
    }
    if |mapNew| > 0 {
      var id := AnyOf(mapNew.Keys);
      assert id in NewIds(s.info) && |Refs(s.newTable, id)| != s.info[id].nRefCount;
    }
  }

  lemma NoneLookedUp(byAddr: map<NetAddr, int>)
    ensures LookedUp(byAddr, byAddr)
  {
  }

  lemma CheckedSizes(h: Hasher, s: State)
    ensures Checked(h, s) ==> |s.random| == s.nTried + s.nNew && EntriesPass(s)
  {
    if Checked(h, s) {
      RandomCovers(s.info, s.random);
      Split(s.info);
      assert NewIds(s.info) - {} == NewIds(s.info);
      forall n | n in s.info
        ensures EntryCode(s, n) == 0
      {
        if s.info[n].fInTried {
          assert Refs(s.newTable, n) == {};
        }
      }
    }
  }

  lemma CheckedTables(h: Hasher, s: State)
    ensures Checked(h, s) ==> TriedOk(h, s.nKey, s.info, s.tried)
    ensures Checked(h, s) ==> NewOk(h, s.nKey, s.info, s.newTable) && RefsOk(s.info, s.newTable, {})
  {
  }

  /** After the first loop. */
  lemma SortedSizes(h: Hasher, s: State, setTried: set<int>, mapNew: map<int, int>)
    requires Sorted(s, s.info.Keys, setTried, mapNew) && EntriesPass(s)
    ensures |setTried| == |TriedIds(s.info)| && |mapNew| == |NewIds(s.info)|
    ensures Checked(h, s) ==> |setTried| == s.nTried && |mapNew| == s.nNew
    ensures TriedSeen(h, s, map[], setTried) && NewSeen(h, s, map[], mapNew)
  {
    SameCount(setTried, TriedIds(s.info));
    SameCount(mapNew.Keys, NewIds(s.info));
    assert NewIds(s.info) - {} == NewIds(s.info);
    forall id: int
      ensures Refs(map[], id) == {}
    {
    }
    forall id | id in s.info
      ensures EntryCode(s, id) == 0
    {
    }
  }

  /** The tables do not depend on the address map. */
  lemma SeenElsewhere(h: Hasher, s: State, byAddr: map<NetAddr, int>, setTried: set<int>, mapNew: map<int, int>)
    requires TriedSeen(h, s, map[], setTried) && NewSeen(h, s, map[], mapNew)
    ensures TriedSeen(h, s.(byAddr := byAddr), map[], setTried) && NewSeen(h, s.(byAddr := byAddr), map[], mapNew)
  {
  }

  lemma SeenBack(h: Hasher, s: State, byAddr: map<NetAddr, int>, setTried: set<int>, mapNew: map<int, int>)
    requires TriedSeen(h, s.(byAddr := byAddr), s.tried, setTried)
    requires NewSeen(h, s.(byAddr := byAddr), s.newTable, mapNew)
    ensures TriedSeen(h, s, s.tried, setTried) && NewSeen(h, s, s.newTable, mapNew)
  {
  }

  /** After the last loop only what is left over counts. */
  lemma AllSeen(h: Hasher, s: State, setTried: set<int>, mapNew: map<int, int>)
    requires TriedSeen(h, s, s.tried, setTried) && NewSeen(h, s, s.newTable, mapNew) && EntriesPass(s)
    requires forall slot <- s.newTable :: slot.bucket < NEW_BUCKETS
    requires |s.random| == s.nTried + s.nNew && |TriedIds(s.info)| == s.nTried && |NewIds(s.info)| == s.nNew
    ensures |setTried| == 0 && |mapNew| == 0 && s.nKey != 0 <==> Checked(h, s)
  {
    hide TriedOk, NewOk, RefsOk, TriedSeen, NewSeen, EntriesPass, RandomOk, TriedIds, NewIds;
    TriedEnds(h, s, setTried);
    NewEnds(h, s, mapNew);
    Split(s.info);
    PlacesFilled(s);
    EntriesSuit(s);
    assert NewIds(s.info) - {} == NewIds(s.info);
    assert |mapNew| == 0 <==> mapNew == map[];
  }

  lemma EntriesSuit(s: State)
    requires EntriesPass(s)
    ensures TimesOk(s.info) && forall n <- s.info :: Lookup(s.byAddr, s.info[n].addr.service.ip) == n
  {
    forall n | n in s.info
      ensures EntryCode(s, n) == 0
    {
    }
  }

  // --- Good at time zero --------------------------------------------------------------------

  /** One announced address, then Good at time zero: the one entry is tried and never succeeded. */
  lemma ZeroState(h: Hasher, nKey: nat, addr: Address, source: NetAddr)
    requires nKey != 0
    ensures Consistent(h, Cleared(nKey))
    ensures var s := Add(h, Cleared(nKey), addr, source, 0, true, 0, 0).0;
            && Consistent(h, s)
            && var t := Good(h, s, addr.service, 0);
            && |t.random| == t.nTried + t.nNew
            && (forall n <- t.info :: n == 0) && 0 in t.info && EntryCode(t, 0) == -1
  {
    hide Inv, Add, Good, MadeTried;
    var c := Cleared(nKey);
    ClearedConsistent(h, nKey);
    AddKeepsConsistent(h, c, addr, source, 0, true, 0, 0);
    AddStores(h, c, addr, source, 0, 0, 0);
    AddEffect(h, c, addr, source, 0, true, 0, 0);
    var s := Add(h, c, addr, source, 0, true, 0, 0).0;
    GoodKeepsConsistent(h, s, addr.service, 0);
    GoodEffect(h, s, addr.service, 0);
    FreshGood(h, s, addr.service, 0);
  }

  /** Without anyone to evict the sizes stay in step. */
  lemma FreshGood(h: Hasher, s: State, addr: Service, nTime: nat)
    requires Consistent(h, s) && Names(s, Find(s, addr.ip), addr) && s.tried == map[]
    ensures var t := Good(h, s, addr, nTime); |t.random| == t.nTried + t.nNew
  {
    hide RandomOk, NewOk, RefsOk, CountsOk;
    SizesAgree(h, s);
    var s1, id := s.(nLastGood := nTime), Find(s, addr.ip);
    var i := Succeeded(s1.info[id], nTime);
    if !i.fInTried {
      TouchKeepsInv(h, s1, id, i, {}, 0);
    }
  }

  /** So the manager's own check answers -1. */
  method RejectedAtZero(h: Hasher, nKey: nat, addr: Address, source: NetAddr) returns (code: int)
    requires nKey != 0
    ensures code == -1
  {
    hide Inv, Add, Good, EntryCode;
    ZeroState(h, nKey, addr, source);
    var m := new CAddrMan(h, nKey);
    var fNew := m.Add_(addr, source, 0, true, 0, 0);
    m.Good_(addr.service, 0, 0);
    code := Check_(m);
  }
}
