/** What the operations of the address manager leave behind: which entries they may forget, and what
    stays true of an entry for as long as it is known. */
module AddrHistory {
  import opened AddrState
  import opened AddrOps

  /** Two states of one entry. */
  predicate SameNode(a: AddrInfo, b: AddrInfo) {
    a.addr.service == b.addr.service && a.source == b.source
  }

  /** All that is known about the node itself, whatever its places in the tables. */
  predicate SameFacts(a: AddrInfo, b: AddrInfo) {
    a == b.(nRefCount := a.nRefCount, fInTried := a.fInTried, nRandomPos := a.nRandomPos)
  }

  // --- Placing an entry ---------------------------------------------------------------------

  function SourceSlot(h: Hasher, nKey: nat, service: Service, source: NetAddr): Slot {
    NewSlot(h, nKey, GetNewBucket(h, nKey, service, source), service)
  }

  /** Entry `x` sits alone in this slot and is terrible, so it may be forgotten. */
  predicate Expendable(s: State, slot: Slot, x: int, nNow: int) {
    && slot in s.newTable && Held(s.newTable, slot) == x
    && x in s.info && s.info[x].nRefCount == 1 && IsTerrible(s.info[x], nNow)
  }

  /** The slot can be had by entry `id`. */
  predicate Available(s: State, slot: Slot, id: int, nNow: int)
    requires id in s.info && (slot in s.newTable ==> Held(s.newTable, slot) in s.info)
  {
    slot !in s.newTable || GivesWay(s, slot, id, nNow)
  }

  lemma PlacedFrames(h: Hasher, s: State, id: int, source: NetAddr, nNow: int, floating: set<int>, extra: int)
    requires Inv(h, s, floating, extra) && id in s.info && !s.info[id].fInTried
    requires s.info[id].nRefCount == 0 <==> id in floating
    ensures var t := Placed(h, s, id, source, nNow, floating, extra);
            && t.tried == s.tried && t.nTried == s.nTried && t.nKey == s.nKey
            && t.nIdCount == s.nIdCount && t.nLastGood == s.nLastGood
    ensures var t, slot := Placed(h, s, id, source, nNow, floating, extra),
            SourceSlot(h, s.nKey, s.info[id].addr.service, source);
            && (forall x :: x in t.info ==> x in s.info && SameFacts(s.info[x], t.info[x]))
            && (forall x :: x in s.info && x !in t.info && x != id ==> Expendable(s, slot, x, nNow))
            && (forall x :: x in s.info && s.info[x].fInTried ==> Untouched(s, t, x))
  {
    hide RandomOk, AddrOk, TriedOk, NewOk, RefsOk, TimesOk, CountsOk, ClearedNew, Deleted, IsTerrible, NewSlot;
    var slot := SourceSlot(h, s.nKey, s.info[id].addr.service, source);
    ClearNewReady(h, s, slot, floating, extra);
    if slot in s.newTable && Held(s.newTable, slot) == id {
    } else if Available(s, slot, id, nNow) {
      ClearNewFrames(h, s, slot, floating, extra);
      ClearedFrames(h, s, slot, floating, extra);
      assert Untouched(s, ClearedNew(s, slot), id);
      LinkedFrames(ClearedNew(s, slot), slot, id);
      forall x | x in s.info && s.info[x].fInTried
        ensures Untouched(s, Linked(ClearedNew(s, slot), slot, id), x)
      {
        assert Untouched(s, ClearedNew(s, slot), x);
      }
    } else if s.info[id].nRefCount == 0 {
      DeletedFrames(s, id);
    }
  }

  /** The entry itself stays exactly if it has a place already or gets the slot. */
  lemma PlacedEntry(h: Hasher, s: State, id: int, source: NetAddr, nNow: int, floating: set<int>, extra: int)
    requires Inv(h, s, floating, extra) && id in s.info && !s.info[id].fInTried
    ensures var slot := SourceSlot(h, s.nKey, s.info[id].addr.service, source);
            slot in s.newTable ==> Held(s.newTable, slot) in s.info && s.info[Held(s.newTable, slot)].nRefCount > 0
    ensures var t, slot := Placed(h, s, id, source, nNow, floating, extra),
            SourceSlot(h, s.nKey, s.info[id].addr.service, source);
            var moves := !(slot in s.newTable && Held(s.newTable, slot) == id) && Available(s, slot, id, nNow);
            && t.newTable == (if moves then s.newTable[slot := id] else s.newTable)
            && (s.info[id].nRefCount != 0 || moves ==>
                  && id in t.info
                  && t.info[id] == s.info[id].(nRefCount := s.info[id].nRefCount + (if moves then 1 else 0),
                                               nRandomPos := t.info[id].nRandomPos))
            && (s.info[id].nRefCount == 0 && !moves ==> id !in t.info)
  {
    hide RandomOk, AddrOk, TriedOk, NewOk, RefsOk, TimesOk, CountsOk, ClearedNew, Deleted, IsTerrible, NewSlot;
    var slot := SourceSlot(h, s.nKey, s.info[id].addr.service, source);
    ClearNewReady(h, s, slot, floating, extra);
    if slot in s.newTable && Held(s.newTable, slot) == id {
    } else if Available(s, slot, id, nNow) {
      ClearNewFrames(h, s, slot, floating, extra);
      assert Untouched(s, ClearedNew(s, slot), id);
      assert (s.newTable - {slot})[slot := id] == s.newTable[slot := id];
    } else if s.info[id].nRefCount == 0 {
      DeletedFrames(s, id);
    }
  }

  /** Clearing a slot forgets at most the owner of the slot, if that was its last place. */
  lemma ClearedFrames(h: Hasher, s: State, slot: Slot, floating: set<int>, extra: int)
    requires Inv(h, s, floating, extra)
    ensures slot in s.newTable ==> Held(s.newTable, slot) in s.info
    ensures var t := ClearedNew(s, slot);
            && (forall x :: x in t.info ==> x in s.info && SameFacts(s.info[x], t.info[x]))
            && (forall x :: x in s.info && x !in t.info ==>
                  slot in s.newTable && Held(s.newTable, slot) == x && s.info[x].nRefCount == 1)
  {
    hide RandomOk, AddrOk, TriedOk, NewOk, RefsOk, TimesOk, CountsOk, Unlinked, Deleted;
    if slot in s.newTable {
      ClearNewFrames(h, s, slot, floating, extra);
      ClearNewOwner(h, s, slot, floating, extra);
      hide ClearedNew;
      forall x | x in ClearedNew(s, slot).info
        ensures SameFacts(s.info[x], ClearedNew(s, slot).info[x])
      {
        assert x != Held(s.newTable, slot) ==> Untouched(s, ClearedNew(s, slot), x);
      }
    }
  }

  lemma LinkedFrames(s: State, slot: Slot, id: int)
    requires id in s.info
    ensures var t := Linked(s, slot, id);
            && (forall x :: x in t.info <==> x in s.info)
            && (forall x :: x in s.info ==> SameFacts(s.info[x], t.info[x]))
            && (forall x :: x != id ==> Untouched(s, t, x))
  {
  }

  lemma DeletedFrames(s: State, id: int)
    requires RandomOk(s.info, s.random) && id in s.info
    ensures var t := Deleted(s, id);
            && t.tried == s.tried && t.nTried == s.nTried && t.nKey == s.nKey && t.newTable == s.newTable
            && t.nIdCount == s.nIdCount && t.nLastGood == s.nLastGood
            && (forall x :: x in t.info <==> x in s.info && x != id)
            && (forall x :: x in t.info ==> SameFacts(s.info[x], t.info[x]))
            && (forall x :: x != id ==> Untouched(s, t, x))
  {
    hide Swapped;
    SwappedLast(s, id);
    SwappedFrames(s, s.info[id].nRandomPos, |s.random| - 1);
  }

  lemma SwappedFrames(s: State, i: nat, j: nat)
    requires RandomOk(s.info, s.random) && i < |s.random| && j < |s.random|
    ensures var t := Swapped(s, i, j);
            && t.tried == s.tried && t.nTried == s.nTried && t.nKey == s.nKey && t.newTable == s.newTable
            && t.nIdCount == s.nIdCount && t.nLastGood == s.nLastGood
            && (forall x :: x in t.info <==> x in s.info)
            && (forall x :: x in s.info ==> t.info[x] == s.info[x].(nRandomPos := t.info[x].nRandomPos))
  {
  }

  // --- Add_ ---------------------------------------------------------------------------------

  /** The service whose bucket is used: the stored one when the address is known. */
  function Subject(h: Hasher, s: State, addr: Service): Service
    requires Consistent(h, s)
  {
    var id := Find(s, addr.ip);
    if id >= 0 then s.info[id].addr.service else addr
  }

  /** The tried table and the nodes behind the ids are as before, and whoever is gone was the terrible
      owner of this slot. */
  ghost predicate Disturbs(s: State, t: State, slot: Slot, nNow: int) {
    && t.tried == s.tried && t.nTried == s.nTried && t.nKey == s.nKey && t.nLastGood == s.nLastGood
    && (forall x :: x in s.info && x !in t.info ==> Expendable(s, slot, x, nNow))
    && (forall x :: x in t.info && x != s.nIdCount ==> x in s.info && SameNode(s.info[x], t.info[x]))
  }

  lemma KnownFrames(h: Hasher, s: State, addr: Address, source: NetAddr, penalty: int, nNow: int, rnd: nat)
    requires Consistent(h, s) && Find(s, addr.service.ip) >= 0
    ensures var id := Find(s, addr.service.ip);
            var i := Seen(s.info[id], addr, penalty, nNow);
            && Consistent(h, Touched(s, id, i))
            && var t := if WantsReference(i, addr, rnd) then Placed(h, Touched(s, id, i), id, source, nNow, {}, 0)
                else Touched(s, id, i);
            Disturbs(s, t, SourceSlot(h, s.nKey, s.info[id].addr.service, source), nNow) && t.nIdCount == s.nIdCount
  {
    hide RandomOk, TriedOk, NewOk, TimesOk, CountsOk, RefsOk, Placed, Seen, NewSlot, IsTerrible;
    var id := Find(s, addr.service.ip);
    var i := Seen(s.info[id], addr, penalty, nNow);
    SeenKeepsInv(h, s, id, addr, penalty, nNow);
    SeenSame(s.info[id], addr, penalty, nNow);
    if WantsReference(i, addr, rnd) {
      PlacedFrames(h, Touched(s, id, i), id, source, nNow, {}, 0);
      PlacedEntry(h, Touched(s, id, i), id, source, nNow, {}, 0);
    }
  }

  lemma SeenSame(i: AddrInfo, addr: Address, penalty: int, nNow: int)
    ensures var j := Seen(i, addr, penalty, nNow);
            SameNode(i, j) && j == i.(addr := j.addr)
  {
  }

  lemma UnknownFrames(h: Hasher, s: State, addr: Address, source: NetAddr, nTime: nat, nNow: int)
    requires Consistent(h, s) && Find(s, addr.service.ip) < 0
    ensures var c := Created(s, addr.(nTime := nTime), source);
            && Inv(h, c.(nNew := c.nNew + 1), {s.nIdCount}, 1) && s.nIdCount in c.info && !c.info[s.nIdCount].fInTried
            && var t := Placed(h, c.(nNew := c.nNew + 1), s.nIdCount, source, nNow, {s.nIdCount}, 1);
            Disturbs(s, t, SourceSlot(h, s.nKey, addr.service, source), nNow) && t.nIdCount == s.nIdCount + 1
  {
    hide RandomOk, TriedOk, NewOk, TimesOk, CountsOk, RefsOk, Placed, NewSlot, IsTerrible;
    CreatePenalized(h, s, addr, source, nTime);
    var c := Created(s, addr.(nTime := nTime), source);
    PlacedFrames(h, c.(nNew := c.nNew + 1), s.nIdCount, source, nNow, {s.nIdCount}, 1);
  }

  /** Add answers whether the address was unknown, never disturbs the tried table, changes no entry's
      service or source, and forgets only the terrible owner of the one slot it looks at. */
  lemma AddEffect(h: Hasher, s: State, addr: Address, source: NetAddr, nTimePenalty: int, isRoutable: bool, nNow: int,
                  rnd: nat)
    requires Consistent(h, s)
    ensures var (t, fNew) := Add(h, s, addr, source, nTimePenalty, isRoutable, nNow, rnd);
            && (fNew <==> isRoutable && addr.service.ip !in s.byAddr)
            && Disturbs(s, t, SourceSlot(h, s.nKey, Subject(h, s, addr.service), source), nNow)
            && t.nIdCount == s.nIdCount + if fNew then 1 else 0
  {
    hide RandomOk, TriedOk, NewOk, TimesOk, CountsOk, RefsOk, Placed, Seen, NewSlot, IsTerrible, WantsReference;
    if isRoutable {
      if Find(s, addr.service.ip) >= 0 {
        KnownFrames(h, s, addr, source, if addr.service.ip == source then 0 else nTimePenalty, nNow, rnd);
      } else {
        var penalty := if addr.service.ip == source then 0 else nTimePenalty;
        UnknownFrames(h, s, addr, source, Max(0, addr.nTime - penalty), nNow);
      }
    }
  }

  /** The slot is free, or its owner is terrible or has another place. */
  predicate Vacant(s: State, slot: Slot, nNow: int) {
    slot in s.newTable && Held(s.newTable, slot) in s.info ==>
      var owner := s.info[Held(s.newTable, slot)];
      IsTerrible(owner, nNow) || owner.nRefCount > 1
  }

  /** An unknown address is stored, penalized, with its one reference, exactly if the slot for this
      source is vacant; otherwise nothing remains of it, although the answer of Add is the same. */
  lemma AddStores(h: Hasher, s: State, addr: Address, source: NetAddr, nTimePenalty: int, nNow: int, rnd: nat)
    requires Consistent(h, s) && addr.service.ip !in s.byAddr
    ensures var t, id := Add(h, s, addr, source, nTimePenalty, true, nNow, rnd).0, s.nIdCount;
            var slot := SourceSlot(h, s.nKey, addr.service, source);
            var nTime: nat := Max(0, addr.nTime - if addr.service.ip == source then 0 else nTimePenalty);
            if Vacant(s, slot, nNow) then
              && Names(t, id, addr.service) && Find(t, addr.service.ip) == id
              && t.info[id] ==
                 AddrInfo(addr.(nTime := nTime), source, 0, 0, 0, 0, 1, false, t.info[id].nRandomPos)
              && t.newTable == s.newTable[slot := id]
            else
              id !in t.info && t.newTable == s.newTable && Find(t, addr.service.ip) == -1
  {
    hide RandomOk, TriedOk, NewOk, TimesOk, CountsOk, RefsOk, Placed, NewSlot, IsTerrible;
    AddKeepsConsistent(h, s, addr, source, nTimePenalty, true, nNow, rnd);
    AddEffect(h, s, addr, source, nTimePenalty, true, nNow, rnd);
    var nTime: nat := Max(0, addr.nTime - if addr.service.ip == source then 0 else nTimePenalty);
    CreatePenalized(h, s, addr, source, nTime);
    var c := Created(s, addr.(nTime := nTime), source);
    PlacedEntry(h, c.(nNew := c.nNew + 1), s.nIdCount, source, nNow, {s.nIdCount}, 1);
    var slot := SourceSlot(h, s.nKey, addr.service, source);
    assert slot in s.newTable ==> Held(s.newTable, slot) in s.info by {
      ClearNewReady(h, s, slot, {}, 0);
    }
  }

  /** Of two addresses with the same slot for their source, the first keeps it while it is not terrible: the
      answer for the second is true and nothing of it is stored. */
  lemma SecondDropped(h: Hasher, nKey: nat, first: Address, second: Address, source: NetAddr)
    requires nKey != 0 && first.nTime > 0 && first.service.ip != second.service.ip
    requires SourceSlot(h, nKey, first.service, source) == SourceSlot(h, nKey, second.service, source)
    ensures Consistent(h, Cleared(nKey))
    ensures var s := Add(h, Cleared(nKey), first, source, 0, true, first.nTime, 0).0;
            && Consistent(h, s)
            && var (t, fNew) := Add(h, s, second, source, 0, true, first.nTime, 0);
            fNew && s.nIdCount !in t.info && t.newTable == s.newTable && Find(t, second.service.ip) == -1
  {
    hide Inv, Add, NewSlot;
    var c := Cleared(nKey);
    ClearedConsistent(h, nKey);
    AddKeepsConsistent(h, c, first, source, 0, true, first.nTime, 0);
    AddStores(h, c, first, source, 0, first.nTime, 0);
    AddEffect(h, c, first, source, 0, true, first.nTime, 0);
    var s := Add(h, c, first, source, 0, true, first.nTime, 0).0;
    OnlyKnown(h, s, 0, second.service.ip);
    AddStores(h, s, second, source, 0, first.nTime, 0);
    AddEffect(h, s, second, source, 0, true, first.nTime, 0);
  }

  lemma OnlyKnown(h: Hasher, s: State, id: int, ip: NetAddr)
    requires Consistent(h, s) && (forall n <- s.info :: n == id) && id in s.info && s.info[id].addr.service.ip != ip
    ensures ip !in s.byAddr
  {
  }

  /** With a hash that is always zero, for example. */
  lemma SecondDroppedExample()
    ensures var h := Hasher((_: seq<nat>) => 0, (_: Service) => 0, (_: NetAddr) => 0);
            var first, second := Address(Service(1, 0), 1, {}), Address(Service(2, 0), 1, {});
            && Consistent(h, Cleared(1))
            && var s := Add(h, Cleared(1), first, 3, 0, true, 1, 0).0;
            && Consistent(h, s)
            && var (t, fNew) := Add(h, s, second, 3, 0, true, 1, 0);
            fNew && s.nIdCount !in t.info && t.newTable == s.newTable && Find(t, 2) == -1
  {
    hide Inv, Add;
    var h := Hasher((_: seq<nat>) => 0, (_: Service) => 0, (_: NetAddr) => 0);
    SecondDropped(h, 1, Address(Service(1, 0), 1, {}), Address(Service(2, 0), 1, {}), 3);
  }

  /** A known address keeps its id; its time never goes back and its services only grow. */
  lemma AddRefreshes(h: Hasher, s: State, addr: Address, source: NetAddr, nTimePenalty: int, isRoutable: bool,
                     nNow: int, rnd: nat)
    requires Consistent(h, s) && addr.service.ip in s.byAddr
    ensures var t, id := Add(h, s, addr, source, nTimePenalty, isRoutable, nNow, rnd).0, Find(s, addr.service.ip);
            && id in t.info && Find(t, addr.service.ip) == id
            && s.info[id].addr.nTime <= t.info[id].addr.nTime
            && s.info[id].addr.nServices <= t.info[id].addr.nServices
            && s.info[id].nRefCount <= t.info[id].nRefCount <= s.info[id].nRefCount + 1
  {
    hide RandomOk, TriedOk, NewOk, TimesOk, CountsOk, RefsOk, Placed, Seen, NewSlot, IsTerrible;
    AddKeepsConsistent(h, s, addr, source, nTimePenalty, isRoutable, nNow, rnd);
    if isRoutable {
      var penalty := if addr.service.ip == source then 0 else nTimePenalty;
      var id := Find(s, addr.service.ip);
      var i := Seen(s.info[id], addr, penalty, nNow);
      SeenKeepsInv(h, s, id, addr, penalty, nNow);
      SeenSame(s.info[id], addr, penalty, nNow);
      SeenForward(s.info[id], addr, penalty, nNow);
      if WantsReference(i, addr, rnd) {
        PlacedEntry(h, Touched(s, id, i), id, source, nNow, {}, 0);
      }
    }
  }

  lemma SeenForward(i: AddrInfo, addr: Address, penalty: int, nNow: int)
    ensures i.addr.nTime <= Seen(i, addr, penalty, nNow).addr.nTime
    ensures i.addr.nServices <= Seen(i, addr, penalty, nNow).addr.nServices
  {
  }

  // --- Good_ --------------------------------------------------------------------------------

  /** The owner of the new slot to which the evicted tried entry falls back. */
  predicate Squeezed(h: Hasher, s: State, slot: Slot, x: int) {
    && slot in s.tried && Held(s.tried, slot) in s.info
    && var home := HomeSlot(h, s.nKey, s.info[Held(s.tried, slot)]);
    home in s.newTable && Held(s.newTable, home) == x && x in s.info && s.info[x].nRefCount == 1
  }

  lemma MakeRoomForgets(h: Hasher, s: State, evictee: int, floating: set<int>)
    requires Inv(h, s, floating, 0) && evictee in s.info && s.info[evictee].fInTried
    ensures var t, home := MadeRoom(h, s, evictee, floating), HomeSlot(h, s.nKey, s.info[evictee]);
            && t.nIdCount == s.nIdCount && t.nLastGood == s.nLastGood
            && (forall x :: x in t.info ==> x in s.info && SameFacts(s.info[x], t.info[x]))
            && (forall x :: x in s.info && x !in t.info ==>
                  home in s.newTable && Held(s.newTable, home) == x && s.info[x].nRefCount == 1)
  {
    hide RandomOk, AddrOk, TriedOk, NewOk, RefsOk, TimesOk, CountsOk, ClearedNew, HomeSlot;
    EvictKeepsInv(h, s, evictee, floating, 0);
    var e := Evicted(h, s, evictee);
    var home := HomeSlot(h, s.nKey, s.info[evictee]);
    ClearNewFrames(h, e, home, floating + {evictee}, 0);
    ClearedFrames(h, e, home, floating + {evictee}, 0);
    assert Untouched(e, ClearedNew(e, home), evictee);
    LinkedFrames(ClearedNew(e, home), home, evictee);
  }

  lemma MadeTriedForgets(h: Hasher, s: State, id: int)
    requires Consistent(h, s) && id in s.info && !s.info[id].fInTried
    ensures var t := MadeTried(h, s, id);
            && t.nIdCount == s.nIdCount && t.nLastGood == s.nLastGood
            && (forall x :: x in t.info ==> x in s.info && SameFacts(s.info[x], t.info[x]))
            && (forall x :: x in s.info && x !in t.info ==>
                  x != id && Squeezed(h, s, TriedSlot(h, s.nKey, s.info[id].addr.service), x))
  {
    hide RandomOk, AddrOk, TriedOk, NewOk, RefsOk, TimesOk, CountsOk, MadeRoom, HomeSlot, TriedSlot;
    MadeTriedEntry(h, s, id);
    DetachKeepsInv(h, s, id, {}, 0);
    assert {} + {id} == {id};
    var d := Detached(s, id);
    var slot := TriedSlot(h, s.nKey, s.info[id].addr.service);
    if slot in d.tried {
      var evictee := Held(d.tried, slot);
      TriedOwner(h, d, slot, {id}, 0);
      MakeRoomFrames(h, d, evictee, {id});
      MakeRoomForgets(h, d, evictee, {id});
      assert Untouched(d, MadeRoom(h, d, evictee, {id}), id);
      assert HomeSlot(h, s.nKey, d.info[evictee]) == HomeSlot(h, s.nKey, s.info[evictee]);
      assert forall k <- d.newTable :: k in s.newTable && Held(d.newTable, k) == Held(s.newTable, k);
    }
  }

  /** Good puts its entry over the old owner of the tried slot and forgets nothing, except the entry
      that loses its last place to the one evicted from there. */
  lemma GoodEffect(h: Hasher, s: State, addr: Service, nTime: nat)
    requires Consistent(h, s)
    ensures var t, id, slot := Good(h, s, addr, nTime), Find(s, addr.ip), TriedSlot(h, s.nKey, addr);
            && t.nIdCount == s.nIdCount && t.nKey == s.nKey && t.nLastGood == nTime
            && t.tried == (if Names(s, id, addr) then s.tried[slot := id] else s.tried)
            && (forall x :: x in t.info ==> x in s.info && SameNode(s.info[x], t.info[x]))
            && (forall x :: x in s.info && x !in t.info ==> Names(s, id, addr) && x != id && Squeezed(h, s, slot, x))
  {
    hide RandomOk, NewOk, RefsOk, TimesOk, CountsOk, MadeTried, HomeSlot, TriedSlot;
    var s1 := s.(nLastGood := nTime);
    var id := Find(s, addr.ip);
    if Names(s, id, addr) {
      var i := Succeeded(s1.info[id], nTime);
      if i.fInTried {
        assert s.tried[TriedSlot(h, s.nKey, addr) := id] == s.tried;
      } else {
        TouchKeepsInv(h, s1, id, i, {}, 0);
        MadeTriedEntry(h, Touched(s1, id, i), id);
        MadeTriedForgets(h, Touched(s1, id, i), id);
        forall x | Squeezed(h, Touched(s1, id, i), TriedSlot(h, s.nKey, addr), x) && x != id
          ensures Squeezed(h, s, TriedSlot(h, s.nKey, addr), x)
        {
          SqueezedBefore(h, s, Touched(s1, id, i), id, TriedSlot(h, s.nKey, addr), x);
        }
      }
    }
  }

  lemma SqueezedBefore(h: Hasher, s: State, t: State, id: int, slot: Slot, x: int)
    requires Squeezed(h, t, slot, x) && t.tried == s.tried && t.newTable == s.newTable && t.nKey == s.nKey
    requires id in s.info && id in t.info && x != id && t.info == s.info[id := t.info[id]]
    requires SameNode(s.info[id], t.info[id])
    ensures Squeezed(h, s, slot, x)
  {
    hide NewSlot;
  }

  // --- GetAddr_ -----------------------------------------------------------------------------

  /** This is what is known about the address, and it is not terrible. */
  predicate Offered(s: State, a: Address, nNow: int) {
    var id := Find(s, a.service.ip);
    id >= 0 && s.info[id].addr == a && !IsTerrible(s.info[id], nNow)
  }

  /** The address of the entry at a place of vRandom. */
  function AddressAt(s: State, i: nat): Address
    requires RandomOk(s.info, s.random) && i < |s.random|
  {
    s.info[IdAt(s.random, i)].addr
  }

  /** Where vRandom lists an address. */
  function PlaceOf(s: State, a: Address): int {
    var id := Find(s, a.service.ip);
    if id >= 0 then s.info[id].nRandomPos else -1
  }

  lemma FoundAt(h: Hasher, s: State, i: nat)
    requires Consistent(h, s) && i < |s.random|
    ensures RandomOk(s.info, s.random) && PlaceOf(s, AddressAt(s, i)) == i
    ensures Find(s, AddressAt(s, i).service.ip) == IdAt(s.random, i) >= 0
  {
    hide TriedOk, NewOk, RefsOk, TimesOk, CountsOk;
  }

  /** The addresses are known, not terrible, in the first places of vRandom, and none is listed twice;
      and of those places no acceptable one is missing. */
  ghost predicate Selection(s: State, r: seq<Address>, m: nat, nNow: int)
    requires RandomOk(s.info, s.random) && m <= |s.random|
  {
    && (forall k | 0 <= k < |r| :: Offered(s, r[k], nNow) && 0 <= PlaceOf(s, r[k]) < m)
    && (forall j, k | 0 <= j < k < |r| :: r[j].service.ip != r[k].service.ip)
    && (forall i: nat | i < m && Offered(s, AddressAt(s, i), nNow) :: AddressAt(s, i) in r)
  }

  lemma SelectionNext(h: Hasher, s: State, r: seq<Address>, m: nat, nNow: int)
    requires Consistent(h, s) && m < |s.random| && RandomOk(s.info, s.random) && Selection(s, r, m, nNow)
    ensures Selection(s, if Offered(s, AddressAt(s, m), nNow) then r + [AddressAt(s, m)] else r, m + 1, nNow)
  {
    hide Inv, RandomOk, Offered, AddressAt, Find;
    FoundAt(h, s, m);
    assert forall k | 0 <= k < |r| :: r[k].service.ip != AddressAt(s, m).service.ip;
  }

  /** What GetAddr hands out. */
  lemma {:induction false} ListedIs(h: Hasher, s: State, m: nat, nNow: int)
    requires Consistent(h, s) && m <= |s.random|
    ensures RandomOk(s.info, s.random) && Selection(s, Listed(s.info, s.random, m, nNow), m, nNow)
  {
    hide RandomOk, AddrOk, TriedOk, NewOk, RefsOk, TimesOk, CountsOk, IsTerrible, Find, Selection;
    if m > 0 {
      ListedIs(h, s, m - 1, nNow);
      var r := Listed(s.info, s.random, m - 1, nNow);
      SelectionNext(h, s, r, m - 1, nNow);
      FoundAt(h, s, m - 1);
      assert r + [] == r;
    } else {
      NothingSelected(s, nNow);
    }
  }

  lemma NothingSelected(s: State, nNow: int)
    requires RandomOk(s.info, s.random)
    ensures Selection(s, [], 0, nNow)
  {
  }

  // --- Whole runs ---------------------------------------------------------------------------

  function Forgotten(s: State, t: State): set<int> {
    set x | x in s.info && x !in t.info
  }

  /** An id is never given to another node. */
  ghost predicate Faithful(s: State, t: State) {
    && s.nIdCount <= t.nIdCount
    && forall x :: x in t.info && x < s.nIdCount ==> x in s.info && SameNode(s.info[x], t.info[x])
  }

  lemma TouchesForgetNothing(s: State, addr: Service, fCountFailure: bool, nTime: nat, nServices: set<nat>)
    ensures Faithful(s, Attempt(s, addr, fCountFailure, nTime))
    ensures Forgotten(s, Attempt(s, addr, fCountFailure, nTime)) == {}
    ensures Faithful(s, Connected(s, addr, nTime)) && Forgotten(s, Connected(s, addr, nTime)) == {}
    ensures Faithful(s, SetServices(s, addr, nServices)) && Forgotten(s, SetServices(s, addr, nServices)) == {}
  {
  }

  lemma {:induction false} ShuffleForgetsNothing(s: State, picks: seq<nat>, m: nat)
    requires Drawn(picks, |s.random|) && m <= |picks|
    ensures Faithful(s, Shuffled(s, picks, m)) && Forgotten(s, Shuffled(s, picks, m)) == {}
  {
    if m > 0 {
      ShuffleForgetsNothing(s, picks, m - 1);
    }
  }

  function SqueezedOwner(h: Hasher, s: State, slot: Slot): int {
    if slot in s.tried && Held(s.tried, slot) in s.info
    then Owner(s.newTable, HomeSlot(h, s.nKey, s.info[Held(s.tried, slot)])) else -1
  }

  function Owner(t: Table, slot: Slot): int {
    if slot in t then Held(t, slot) else -1
  }

  lemma AtMostOne(a: set<int>, v: int)
    requires forall x <- a :: x == v
    ensures |a| <= 1
  {
    assert forall x <- a :: x in {v};
    Subset(a, {v});
  }

  /** At most one entry is gone, and not a tried one; no id has changed hands. */
  ghost predicate Gentle(s: State, t: State) {
    && Faithful(s, t) && |Forgotten(s, t)| <= 1
    && forall x <- Forgotten(s, t) :: !s.info[x].fInTried
  }

  lemma AddForgets(h: Hasher, s: State, addr: Address, source: NetAddr, nTimePenalty: int, isRoutable: bool,
                   nNow: int, rnd: nat)
    requires Consistent(h, s)
    ensures Gentle(s, Add(h, s, addr, source, nTimePenalty, isRoutable, nNow, rnd).0)
  {
    hide Add, RandomOk, AddrOk, TriedOk, RefsOk, TimesOk, CountsOk, SourceSlot, NewSlot, IsTerrible;
    AddEffect(h, s, addr, source, nTimePenalty, isRoutable, nNow, rnd);
    var t := Add(h, s, addr, source, nTimePenalty, isRoutable, nNow, rnd).0;
    AtMostOne(Forgotten(s, t), Owner(s.newTable, SourceSlot(h, s.nKey, Subject(h, s, addr.service), source)));
  }

  lemma GoodForgets(h: Hasher, s: State, addr: Service, nTime: nat)
    requires Consistent(h, s)
    ensures Gentle(s, Good(h, s, addr, nTime))
  {
    hide Good, RandomOk, AddrOk, TriedOk, RefsOk, TimesOk, CountsOk, HomeSlot, TriedSlot, NewSlot;
    GoodEffect(h, s, addr, nTime);
    AtMostOne(Forgotten(s, Good(h, s, addr, nTime)), SqueezedOwner(h, s, TriedSlot(h, s.nKey, addr)));
  }

  /** One operation forgets at most one entry, and never a tried one. */
  lemma ApplyEffect(h: Hasher, s: State, o: Op)
    requires Consistent(h, s) && Legal(s, o)
    ensures Gentle(s, Apply(h, s, o))
  {
    hide Consistent, Add, Good, Shuffled, Attempt, Connected, SetServices;
    match o
    case AddOp(addr, source, nTimePenalty, isRoutable, nNow, rnd) =>
      AddForgets(h, s, addr, source, nTimePenalty, isRoutable, nNow, rnd);
    case GoodOp(addr, nTime) => GoodForgets(h, s, addr, nTime);
    case AttemptOp(addr, fCountFailure, nTime) => TouchesForgetNothing(s, addr, fCountFailure, nTime, {});
    case ConnectedOp(addr, nTime) => TouchesForgetNothing(s, addr, false, nTime, {});
    case SetServicesOp(addr, nServices) => TouchesForgetNothing(s, addr, false, 0, nServices);
    case GetAddrOp(picks) => ShuffleForgetsNothing(s, picks, |picks|);
  }

  /** Over any run, an id keeps its node for as long as it is known, and every operation can cost at
      most one entry. */
  lemma {:induction false} RunEffect(h: Hasher, s: State, ops: seq<Op>)
    requires Consistent(h, s) && LegalRun(h, s, ops)
    ensures Faithful(s, RunFrom(h, s, ops)) && |Forgotten(s, RunFrom(h, s, ops))| <= |ops|
    decreases |ops|
  {
    hide Consistent, Apply;
    if ops == [] {
      assert Forgotten(s, s) == {};
    } else {
      ApplyKeepsConsistent(h, s, ops[0]);
      ApplyEffect(h, s, ops[0]);
      var t := Apply(h, s, ops[0]);
      RunEffect(h, t, ops[1..]);
      ForgottenTwice(s, t, RunFrom(h, t, ops[1..]));
    }
  }

  lemma ForgottenTwice(s: State, t: State, u: State)
    ensures |Forgotten(s, u)| <= |Forgotten(s, t)| + |Forgotten(t, u)|
  {
    assert Forgotten(s, u) <= Forgotten(s, t) + Forgotten(t, u);
    Subset(Forgotten(s, u), Forgotten(s, t) + Forgotten(t, u));
  }

  lemma {:induction false} Subset(a: set<int>, b: set<int>)
    requires a <= b
    ensures |a| <= |b|
  {
    assert b == a + (b - a);
  }

  /** Why Good must not be given a zero time: one announced address, then Good at time zero. */
  lemma GoodAtZero(h: Hasher, nKey: nat, addr: Address, source: NetAddr)
    requires nKey != 0
    ensures Consistent(h, Cleared(nKey))
    ensures var s := Add(h, Cleared(nKey), addr, source, 0, true, 0, 0).0;
            Consistent(h, s) && !Consistent(h, Good(h, s, addr.service, 0))
  {
    hide Inv, Add, Good;
    ClearedConsistent(h, nKey);
    AddKeepsConsistent(h, Cleared(nKey), addr, source, 0, true, 0, 0);
    AddStores(h, Cleared(nKey), addr, source, 0, 0, 0);
    GoodKeepsConsistent(h, Add(h, Cleared(nKey), addr, source, 0, true, 0, 0).0, addr.service, 0);
  }
}
