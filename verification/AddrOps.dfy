/** The operations of the address manager on values, each one a composition of the steps in AddrState,
    and the consistency of every run of them. */
module AddrOps {
  import opened AddrState

  function Find(s: State, a: NetAddr): (id: int)
    ensures id >= 0 ==> a in s.byAddr && id == IdOf(s.byAddr, a) && id in s.info
    ensures AddrOk(s.info, s.byAddr, s.nIdCount) ==> (id >= 0 <==> a in s.byAddr)
  {
    if a in s.byAddr && IdOf(s.byAddr, a) in s.info && IdOf(s.byAddr, a) >= 0 then IdOf(s.byAddr, a) else -1
  }

  const ADDRMAN_HORIZON_DAYS := 30
  const ADDRMAN_RETRIES := 3
  const ADDRMAN_MAX_FAILURES := 10
  const ADDRMAN_MIN_FAIL_DAYS := 7

  predicate IsTerrible(i: AddrInfo, nNow: int) {
    if i.nLastTry != 0 && i.nLastTry >= nNow - 60 then false
    else
      || i.addr.nTime > nNow + 10 * 60
      || i.addr.nTime == 0 || nNow - i.addr.nTime > ADDRMAN_HORIZON_DAYS * 24 * 60 * 60
      || (i.nLastSuccess == 0 && i.nAttempts >= ADDRMAN_RETRIES)
      || (nNow - i.nLastSuccess > ADDRMAN_MIN_FAIL_DAYS * 24 * 60 * 60 && i.nAttempts >= ADDRMAN_MAX_FAILURES)
  }

  // --- MakeTried and Good_ ------------------------------------------------------------------

  /** The slot of the new table that an entry falls back to. */
  function HomeSlot(h: Hasher, nKey: nat, i: AddrInfo): Slot {
    NewSlot(h, nKey, GetNewBucket(h, nKey, i.addr.service, i.source), i.addr.service)
  }

  /** The tried entry in the way goes back to its new bucket, displacing whatever is there. */
  function MadeRoom(h: Hasher, s: State, evictee: int, floating: set<int>): State
    requires Inv(h, s, floating, 0) && evictee in s.info && s.info[evictee].fInTried
  {
    EvictKeepsInv(h, s, evictee, floating, 0);
    var e := Evicted(h, s, evictee);
    var slot := HomeSlot(h, s.nKey, s.info[evictee]);
    ClearNewFrames(h, e, slot, floating + {evictee}, 0);
    var c := ClearedNew(e, slot);
    Linked(c, slot, evictee).(nNew := c.nNew + 1)
  }

  lemma MakeRoomKeepsInv(h: Hasher, s: State, evictee: int, floating: set<int>)
    requires Inv(h, s, floating, 0) && evictee in s.info && s.info[evictee].fInTried
    ensures Inv(h, MadeRoom(h, s, evictee, floating), floating, 0) && evictee !in floating
  {
    hide RandomOk, AddrOk, TriedOk, NewOk, TimesOk, CountsOk, ClearedNew;
    EvictKeepsInv(h, s, evictee, floating, 0);
    var e := Evicted(h, s, evictee);
    var slot := HomeSlot(h, s.nKey, s.info[evictee]);
    ClearNewFrames(h, e, slot, floating + {evictee}, 0);
    ClearNewKeepsInv(h, e, slot, floating + {evictee}, 0);
    var c := ClearedNew(e, slot);
    assert Untouched(e, c, evictee);
    LinkKeepsInv(h, c, slot, evictee, floating + {evictee}, 0);
    assert floating + {evictee} - {evictee} == floating;
    CountsMore(h, Linked(c, slot, evictee), floating, -1);
  }

  lemma CountsMore(h: Hasher, s: State, floating: set<int>, extra: int)
    requires Inv(h, s, floating, extra)
    ensures Inv(h, s.(nNew := s.nNew + 1), floating, extra + 1)
  {
  }

  lemma MakeRoomFrames(h: Hasher, s: State, evictee: int, floating: set<int>)
    requires Inv(h, s, floating, 0) && evictee in s.info && s.info[evictee].fInTried
    ensures var t := MadeRoom(h, s, evictee, floating);
            && (forall id <- floating :: Untouched(s, t, id))
            && t.tried == s.tried - {TriedSlot(h, s.nKey, s.info[evictee].addr.service)} && t.nKey == s.nKey
            && evictee in t.info && t.info[evictee].nRefCount == 1 && !t.info[evictee].fInTried
            && t.info[evictee].addr == s.info[evictee].addr
  {
    hide RandomOk, AddrOk, TriedOk, NewOk, TimesOk, CountsOk, ClearedNew;
    EvictKeepsInv(h, s, evictee, floating, 0);
    var e := Evicted(h, s, evictee);
    var slot := HomeSlot(h, s.nKey, s.info[evictee]);
    ClearNewFrames(h, e, slot, floating + {evictee}, 0);
    assert Untouched(e, ClearedNew(e, slot), evictee);
    assert forall id <- floating :: Untouched(e, ClearedNew(e, slot), id);
  }

  function MadeTried(h: Hasher, s: State, id: int): State
    requires Consistent(h, s) && id in s.info && !s.info[id].fInTried
  {
    DetachKeepsInv(h, s, id, {}, 0);
    assert {} + {id} == {id};
    var d := Detached(s, id);
    var slot := TriedSlot(h, s.nKey, s.info[id].addr.service);
    var m := if slot in d.tried then MakeRoomFrames(h, d, Held(d.tried, slot), {id});
        MadeRoom(h, d, Held(d.tried, slot), {id}) else d;
    assert Untouched(d, m, id);
    Promoted(h, m, id)
  }

  /** The whole cascade keeps consistency: the entry is in the tried table, and the one it displaced
      is a new entry again. */
  lemma MakeTriedKeepsInv(h: Hasher, s: State, id: int)
    requires Consistent(h, s) && id in s.info && !s.info[id].fInTried && s.info[id].nLastSuccess != 0
    ensures var t := MadeTried(h, s, id);
            && Consistent(h, t)
            && id in t.info && t.info[id].fInTried && t.info[id].addr == s.info[id].addr
            && var slot := TriedSlot(h, s.nKey, s.info[id].addr.service);
            && slot in t.tried && Held(t.tried, slot) == id
            && (slot in s.tried ==>
                  && Held(s.tried, slot) in t.info
                  && !t.info[Held(s.tried, slot)].fInTried && t.info[Held(s.tried, slot)].nRefCount == 1)
  {
    hide RandomOk, AddrOk, NewOk, RefsOk, TimesOk, CountsOk, MadeRoom, Promoted;
    DetachKeepsInv(h, s, id, {}, 0);
    assert {} + {id} == {id} && {id} - {id} == {};
    var d := Detached(s, id);
    var slot := TriedSlot(h, s.nKey, s.info[id].addr.service);
    var m := d;
    if slot in d.tried {
      var evictee := Held(d.tried, slot);
      MakeRoomKeepsInv(h, d, evictee, {id});
      MakeRoomFrames(h, d, evictee, {id});
      m := MadeRoom(h, d, evictee, {id});
    }
    assert Untouched(d, m, id);
    PromoteKeepsInv(h, m, id, {id}, 0);
    PromotedEntry(h, m, id);
  }

  /** Whatever gives way, the entry itself keeps everything but its place. */
  lemma MadeTriedEntry(h: Hasher, s: State, id: int)
    requires Consistent(h, s) && id in s.info && !s.info[id].fInTried
    ensures var t := MadeTried(h, s, id);
            && id in t.info && t.info[id] ==
                s.info[id].(fInTried := true, nRefCount := 0, nRandomPos := t.info[id].nRandomPos)
            && t.tried == s.tried[TriedSlot(h, s.nKey, s.info[id].addr.service) := id] && t.nKey == s.nKey
  {
    hide RandomOk, AddrOk, TriedOk, NewOk, RefsOk, TimesOk, CountsOk, MadeRoom;
    DetachKeepsInv(h, s, id, {}, 0);
    assert {} + {id} == {id};
    var d := Detached(s, id);
    var slot := TriedSlot(h, s.nKey, s.info[id].addr.service);
    if slot in d.tried {
      TriedOwner(h, d, slot, {id}, 0);
      MakeRoomFrames(h, d, Held(d.tried, slot), {id});
      assert Untouched(d, MadeRoom(h, d, Held(d.tried, slot), {id}), id);
    }
  }

  lemma TriedOwner(h: Hasher, s: State, slot: Slot, floating: set<int>, extra: int)
    requires Inv(h, s, floating, extra) && slot in s.tried
    ensures var id := Held(s.tried, slot);
            id in s.info && s.info[id].fInTried && slot == TriedSlot(h, s.nKey, s.info[id].addr.service)
  {
  }

  lemma PromotedEntry(h: Hasher, s: State, id: int)
    requires id in s.info
    ensures var t := Promoted(h, s, id);
            var slot := TriedSlot(h, s.nKey, s.info[id].addr.service);
            && t.info == s.info[id := s.info[id].(fInTried := true)]
            && slot in t.tried && Held(t.tried, slot) == id
  {
  }

  /** The entry is the very service that is talked about, port included. */
  predicate Names(s: State, id: int, addr: Service) {
    id >= 0 && id in s.info && s.info[id].addr.service == addr
  }

  /** An entry after a success. */
  function Succeeded(i: AddrInfo, nTime: nat): AddrInfo {
    i.(nLastSuccess := nTime, nLastTry := nTime, nAttempts := 0)
  }

  /** Times are read off the clock, so they are not negative; a zero is possible. */
  function Good(h: Hasher, s0: State, addr: Service, nTime: nat): State
    requires Consistent(h, s0)
  {
    var s := s0.(nLastGood := nTime);
    var id := Find(s, addr.ip);
    if !Names(s, id, addr) then s
    else
      var i := Succeeded(s.info[id], nTime);
      if i.fInTried then Touched(s, id, i)
      else
        TouchKeepsInv(h, s, id, i, {}, 0);
        MadeTried(h, Touched(s, id, i), id)
  }

  /** Good leaves a service it knows in the tried table, and keeps consistency exactly if it is given
      a nonzero time or does not know the service: Check_ wants a tried entry to have had a success. */
  lemma GoodKeepsConsistent(h: Hasher, s: State, addr: Service, nTime: nat)
    requires Consistent(h, s)
    ensures Consistent(h, Good(h, s, addr, nTime)) <==> nTime != 0 || !Names(s, Find(s, addr.ip), addr)
    ensures var id, t := Find(s, addr.ip), Good(h, s, addr, nTime);
            Names(s, id, addr) ==>
              && Names(t, id, addr) && t.info[id].fInTried && t.info[id].nLastSuccess == nTime
              && TriedSlot(h, s.nKey, addr) in t.tried && Held(t.tried, TriedSlot(h, s.nKey, addr)) == id
  {
    hide RandomOk, NewOk, RefsOk, CountsOk, MadeTried;
    var s1 := s.(nLastGood := nTime);
    var id := Find(s, addr.ip);
    if Names(s, id, addr) {
      var i := Succeeded(s1.info[id], nTime);
      if !i.fInTried {
        TouchKeepsInv(h, s1, id, i, {}, 0);
        MadeTriedEntry(h, Touched(s1, id, i), id);
        if nTime != 0 {
          MakeTriedKeepsInv(h, Touched(s1, id, i), id);
        }
      } else if nTime != 0 {
        TouchKeepsInv(h, s1, id, i, {}, 0);
      }
    }
  }

  // --- Add_ ---------------------------------------------------------------------------------

  function Max(a: int, b: int): int { if a < b then b else a }

  /** Pow2 of the reference count: how unlikely another reference is made. */
  function Factor(nRefCount: int): (f: nat)
    ensures f >= 1
  {
    if nRefCount <= 0 then 1 else 2 * Factor(nRefCount - 1)
  }

  /** What a sighting of a known address does to its entry. */
  function Seen(i: AddrInfo, addr: Address, nTimePenalty: int, nNow: int): AddrInfo {
    var nUpdateInterval := if nNow - addr.nTime < 24 * 60 * 60 then 60 * 60 else 24 * 60 * 60;
    var nTime: nat :=
      if addr.nTime != 0 && (i.addr.nTime == 0 || i.addr.nTime < addr.nTime - nUpdateInterval - nTimePenalty)
      then Max(0, addr.nTime - nTimePenalty) else i.addr.nTime;
    i.(addr := i.addr.(nTime := nTime, nServices := i.addr.nServices + addr.nServices))
  }

  lemma SeenKeepsInv(h: Hasher, s: State, id: int, addr: Address, nTimePenalty: int, nNow: int)
    requires Consistent(h, s) && id in s.info
    ensures Consistent(h, Touched(s, id, Seen(s.info[id], addr, nTimePenalty, nNow)))
    ensures AlikeEntry(s.info[id], Seen(s.info[id], addr, nTimePenalty, nNow))
    ensures s.info[id].nRefCount <= NEW_BUCKETS_PER_ADDRESS && (!s.info[id].fInTried ==> s.info[id].nRefCount >= 1)
  {
    hide RandomOk, AddrOk, TriedOk, NewOk, CountsOk;
    TouchKeepsInv(h, s, id, Seen(s.info[id], addr, nTimePenalty, nNow), {}, 0);
  }

  /** A known entry is worth another reference; `rnd` is the number drawn below Factor. */
  predicate WantsReference(i: AddrInfo, addr: Address, rnd: nat) {
    && addr.nTime != 0 && !(i.addr.nTime != 0 && addr.nTime <= i.addr.nTime)
    && !i.fInTried
    && i.nRefCount != NEW_BUCKETS_PER_ADDRESS
    && (Factor(i.nRefCount) > 1 ==> rnd == 0)
  }

  /** The existing entry of a slot gives way to entry `id`. */
  predicate GivesWay(s: State, slot: Slot, id: int, nNow: int)
    requires id in s.info && slot in s.newTable && Held(s.newTable, slot) in s.info
  {
    var existing := s.info[Held(s.newTable, slot)];
    IsTerrible(existing, nNow) || (existing.nRefCount > 1 && s.info[id].nRefCount == 0)
  }

  /** The second half of Add_: find room for the entry in the bucket of this source, or drop it. */
  function Placed(h: Hasher, s: State, id: int, source: NetAddr, nNow: int, floating: set<int>, extra: int): State
    requires Inv(h, s, floating, extra) && id in s.info && !s.info[id].fInTried
  {
    var slot := NewSlot(h, s.nKey, GetNewBucket(h, s.nKey, s.info[id].addr.service, source), s.info[id].addr.service);
    if slot in s.newTable && Held(s.newTable, slot) == id then s
    else
      if slot !in s.newTable || GivesWay(s, slot, id, nNow) then
        ClearNewFrames(h, s, slot, floating, extra);
        assert Untouched(s, ClearedNew(s, slot), id);
        Linked(ClearedNew(s, slot), slot, id)
      else if s.info[id].nRefCount == 0 then Deleted(s, id)
      else s
  }

  lemma PlaceKeepsInv(h: Hasher, s: State, id: int, source: NetAddr, nNow: int, floating: set<int>, extra: int)
    requires Inv(h, s, floating, extra) && id in s.info && !s.info[id].fInTried && floating <= {id}
    requires s.info[id].nRefCount < NEW_BUCKETS_PER_ADDRESS && extra == |floating|
    ensures Consistent(h, Placed(h, s, id, source, nNow, floating, extra))
  {
    hide RandomOk, AddrOk, TriedOk, TimesOk, CountsOk, ClearedNew, Deleted;
    var slot := NewSlot(h, s.nKey, GetNewBucket(h, s.nKey, s.info[id].addr.service, source), s.info[id].addr.service);
    assert floating == {} || floating == {id};
    assert floating - {id} == {};
    if id in floating {
      Unreferenced(s.info, s.newTable, floating, id);
    }
    if slot in s.newTable && Held(s.newTable, slot) == id {
    } else if slot !in s.newTable || GivesWay(s, slot, id, nNow) {
      ClearNewFrames(h, s, slot, floating, extra);
      ClearNewKeepsInv(h, s, slot, floating, extra);
      assert Untouched(s, ClearedNew(s, slot), id);
      LinkKeepsInv(h, ClearedNew(s, slot), slot, id, floating, extra);
    } else if s.info[id].nRefCount == 0 {
      DeleteKeepsInv(h, s, id, floating, extra);
    }
  }

  function Add(h: Hasher, s: State, addr: Address, source: NetAddr, nTimePenalty: int, isRoutable: bool, nNow: int,
               rnd: nat): (State, bool)
    requires Consistent(h, s)
  {
    if !isRoutable then (s, false)
    else
      var penalty := if addr.service.ip == source then 0 else nTimePenalty;
      var id := Find(s, addr.service.ip);
      if id >= 0 then
        var i := Seen(s.info[id], addr, penalty, nNow);
        SeenKeepsInv(h, s, id, addr, penalty, nNow);
        var t := Touched(s, id, i);
        (if WantsReference(i, addr, rnd) then Placed(h, t, id, source, nNow, {}, 0) else t, false)
      else
        var nTime: nat := Max(0, addr.nTime - penalty);
        CreatePenalized(h, s, addr, source, nTime);
        var c := Created(s, addr.(nTime := nTime), source);
        (Placed(h, c.(nNew := c.nNew + 1), s.nIdCount, source, nNow, {s.nIdCount}, 1), true)
  }

  lemma CreatePenalized(h: Hasher, s: State, addr: Address, source: NetAddr, nTime: nat)
    requires Consistent(h, s) && Find(s, addr.service.ip) < 0
    ensures var c := Created(s, addr.(nTime := nTime), source);
            && Inv(h, c.(nNew := c.nNew + 1), {s.nIdCount}, 1)
            && s.nIdCount in c.info && !c.info[s.nIdCount].fInTried && c.info[s.nIdCount].nRefCount == 0
  {
    hide RandomOk, TriedOk, NewOk, RefsOk, TimesOk, CountsOk;
    CreateKeepsInv(h, s, addr.(nTime := nTime), source, {}, 0);
    assert {} + {s.nIdCount} == {s.nIdCount};
    CountsMore(h, Created(s, addr.(nTime := nTime), source), {s.nIdCount}, 0);
  }

  lemma AddKeepsConsistent(h: Hasher, s: State, addr: Address, source: NetAddr, nTimePenalty: int, isRoutable: bool,
                           nNow: int, rnd: nat)
    requires Consistent(h, s)
    ensures Consistent(h, Add(h, s, addr, source, nTimePenalty, isRoutable, nNow, rnd).0)
  {
    hide RandomOk, TriedOk, NewOk, TimesOk, CountsOk, RefsOk, Placed, Seen;
    if isRoutable {
      var penalty := if addr.service.ip == source then 0 else nTimePenalty;
      var id := Find(s, addr.service.ip);
      if id >= 0 {
        var i := Seen(s.info[id], addr, penalty, nNow);
        SeenKeepsInv(h, s, id, addr, penalty, nNow);
        if WantsReference(i, addr, rnd) {
          PlaceKeepsInv(h, Touched(s, id, i), id, source, nNow, {}, 0);
        }
      } else {
        var nTime: nat := Max(0, addr.nTime - penalty);
        CreatePenalized(h, s, addr, source, nTime);
        var c := Created(s, addr.(nTime := nTime), source);
        PlaceKeepsInv(h, c.(nNew := c.nNew + 1), s.nIdCount, source, nNow, {s.nIdCount}, 1);
      }
    }
  }

  // --- The operations that only touch entries -----------------------------------------------

  /** An entry after an attempt: a failure counts only once since the last success of anyone. */
  function Tried(i: AddrInfo, fCountFailure: bool, nLastGood: int, nTime: int): AddrInfo {
    if fCountFailure && i.nLastCountAttempt < nLastGood
    then i.(nLastTry := nTime, nLastCountAttempt := nTime, nAttempts := i.nAttempts + 1)
    else i.(nLastTry := nTime)
  }

  function Attempt(s: State, addr: Service, fCountFailure: bool, nTime: int): State {
    var id := Find(s, addr.ip);
    if !Names(s, id, addr) then s else Touched(s, id, Tried(s.info[id], fCountFailure, s.nLastGood, nTime))
  }

  /** An entry after a connection. */
  function Online(i: AddrInfo, nTime: nat): AddrInfo {
    if nTime - i.addr.nTime > 20 * 60 then i.(addr := i.addr.(nTime := nTime)) else i
  }

  function Connected(s: State, addr: Service, nTime: nat): State {
    var id := Find(s, addr.ip);
    if !Names(s, id, addr) then s else Touched(s, id, Online(s.info[id], nTime))
  }

  /** An entry with its services set. */
  function Serving(i: AddrInfo, nServices: set<nat>): AddrInfo {
    i.(addr := i.addr.(nServices := nServices))
  }

  function SetServices(s: State, addr: Service, nServices: set<nat>): State {
    var id := Find(s, addr.ip);
    if !Names(s, id, addr) then s else Touched(s, id, Serving(s.info[id], nServices))
  }

  lemma TouchesKeepConsistent(h: Hasher, s: State, addr: Service, fCountFailure: bool, nTime: nat, nServices: set<nat>)
    requires Consistent(h, s)
    ensures Consistent(h, Attempt(s, addr, fCountFailure, nTime))
    ensures Consistent(h, Connected(s, addr, nTime))
    ensures Consistent(h, SetServices(s, addr, nServices))
  {
    hide RandomOk, AddrOk, TriedOk, NewOk, CountsOk, RefsOk;
    var id := Find(s, addr.ip);
    if Names(s, id, addr) {
      TouchKeepsInv(h, s, id, Attempt(s, addr, fCountFailure, nTime).info[id], {}, 0);
      TouchKeepsInv(h, s, id, Connected(s, addr, nTime).info[id], {}, 0);
      TouchKeepsInv(h, s, id, SetServices(s, addr, nServices).info[id], {}, 0);
    }
  }

  // --- GetAddr_ -----------------------------------------------------------------------------

  /** The positions drawn for positions 0, 1, ... of vRandom. */
  predicate Drawn(picks: seq<nat>, size: nat) {
    |picks| <= size && forall k | 0 <= k < |picks| :: k <= picks[k] < size
  }

  /** The state after position k has traded places with picks[k], for each k below m in turn. */
  function Shuffled(s: State, picks: seq<nat>, m: nat): (t: State)
    requires Drawn(picks, |s.random|) && m <= |picks|
    ensures |t.random| == |s.random|
  {
    if m == 0 then s else Swapped(Shuffled(s, picks, m - 1), m - 1, picks[m - 1])
  }

  lemma {:induction false} ShuffleKeepsConsistent(h: Hasher, s: State, picks: seq<nat>, m: nat)
    requires Consistent(h, s) && Drawn(picks, |s.random|) && m <= |picks|
    ensures Consistent(h, Shuffled(s, picks, m))
  {
    hide Inv, Swapped;
    if m > 0 {
      ShuffleKeepsConsistent(h, s, picks, m - 1);
      SwapStep(h, Shuffled(s, picks, m - 1), m - 1, picks[m - 1]);
    }
  }

  lemma SwapStep(h: Hasher, s: State, i: nat, j: nat)
    requires Consistent(h, s) && i < |s.random| && j < |s.random|
    ensures RandomOk(s.info, s.random) && IdAt(s.random, i) in s.info && IdAt(s.random, j) in s.info
    ensures Consistent(h, Swapped(s, i, j)) && |Swapped(s, i, j).random| == |s.random|
    ensures RandomOk(Swapped(s, i, j).info, Swapped(s, i, j).random)
  {
    hide AddrOk, TriedOk, NewOk, RefsOk, TimesOk, CountsOk;
    SwapKeepsInv(h, s, i, j, {}, 0);
  }

  /** The addresses of the first `m` entries of vRandom that are not terrible. */
  function Listed(info: Infos, random: seq<int>, m: nat, nNow: int): (r: seq<Address>)
    requires m <= |random| && RandomOk(info, random)
    ensures |r| <= m
  {
    if m == 0 then []
    else
      var i := info[IdAt(random, m - 1)];
      Listed(info, random, m - 1, nNow) + if IsTerrible(i, nNow) then [] else [i.addr]
  }

  /** Swaps further back do not change the front. */
  lemma {:induction false} ListedSwap(s: State, i: nat, j: nat, m: nat, nNow: int)
    requires m <= i < |s.random| && m <= j < |s.random| && RandomOk(s.info, s.random)
    requires RandomOk(Swapped(s, i, j).info, Swapped(s, i, j).random) && |Swapped(s, i, j).random| == |s.random|
    ensures Listed(Swapped(s, i, j).info, Swapped(s, i, j).random, m, nNow) == Listed(s.info, s.random, m, nNow)
  {
    if m > 0 {
      ListedSwap(s, i, j, m - 1, nNow);
      SwappedAt(s, i, j, m - 1);
    }
  }

  // --- Whole runs ---------------------------------------------------------------------------

  function Cleared(nKey: nat): State {
    State(0, map[], map[], [], 0, map[], 0, map[], 1, nKey)
  }

  lemma ClearedConsistent(h: Hasher, nKey: nat)
    requires nKey != 0
    ensures Consistent(h, Cleared(nKey))
  {
    assert TriedIds(map[]) == {} && NewIds(map[]) == {};
  }

  datatype Op =
    | AddOp(addr: Address, source: NetAddr, nTimePenalty: int, isRoutable: bool, nNow: int, rnd: nat)
    | GoodOp(service: Service, nTime: nat)
    | AttemptOp(service: Service, fCountFailure: bool, nTime: nat)
    | ConnectedOp(service: Service, nTime: nat)
    | SetServicesOp(service: Service, nServices: set<nat>)
    | GetAddrOp(picks: seq<nat>)

  /** Good is not given a zero time for a service it knows, and random positions are in range. */
  predicate Legal(s: State, o: Op) {
    match o
    case GoodOp(addr, nTime) => nTime != 0 || !Names(s, Find(s, addr.ip), addr)
    case GetAddrOp(picks) => Drawn(picks, |s.random|)
    case _ => true
  }

  function Apply(h: Hasher, s: State, o: Op): State
    requires Consistent(h, s) && Legal(s, o)
  {
    match o
    case AddOp(addr, source, nTimePenalty, isRoutable, nNow, rnd) =>
      Add(h, s, addr, source, nTimePenalty, isRoutable, nNow, rnd).0
    case GoodOp(addr, nTime) => Good(h, s, addr, nTime)
    case AttemptOp(addr, fCountFailure, nTime) => Attempt(s, addr, fCountFailure, nTime)
    case ConnectedOp(addr, nTime) => Connected(s, addr, nTime)
    case SetServicesOp(addr, nServices) => SetServices(s, addr, nServices)
    case GetAddrOp(picks) => Shuffled(s, picks, |picks|)
  }

  lemma ApplyKeepsConsistent(h: Hasher, s: State, o: Op)
    requires Consistent(h, s) && Legal(s, o)
    ensures Consistent(h, Apply(h, s, o))
  {
    hide Consistent, Add, Good, Shuffled, Attempt, Connected, SetServices;
    match o
    case AddOp(addr, source, nTimePenalty, isRoutable, nNow, rnd) =>
      AddKeepsConsistent(h, s, addr, source, nTimePenalty, isRoutable, nNow, rnd);
    case GoodOp(addr, nTime) => GoodKeepsConsistent(h, s, addr, nTime);
    case AttemptOp(addr, fCountFailure, nTime) => TouchesKeepConsistent(h, s, addr, fCountFailure, nTime, {});
    case ConnectedOp(addr, nTime) => TouchesKeepConsistent(h, s, addr, false, nTime, {});
    case SetServicesOp(addr, nServices) => TouchesKeepConsistent(h, s, addr, false, 0, nServices);
    case GetAddrOp(picks) => ShuffleKeepsConsistent(h, s, picks, |picks|);
  }

  ghost predicate LegalRun(h: Hasher, s: State, ops: seq<Op>)
    requires Consistent(h, s)
    decreases |ops|
  {
    ops == [] || (Legal(s, ops[0]) && (ApplyKeepsConsistent(h, s, ops[0]); LegalRun(h, Apply(h, s, ops[0]), ops[1..])))
  }

  /** Every state an address manager can reach is consistent, and the number of entries is the sum
      of the two counters. */
  ghost function RunFrom(h: Hasher, s: State, ops: seq<Op>): (t: State)
    requires Consistent(h, s) && LegalRun(h, s, ops)
    ensures Consistent(h, t) && |t.random| == |t.info| == t.nTried + t.nNew
    decreases |ops|
  {
    if ops == [] then
      SizesAgree(h, s);
      s
    else
      ApplyKeepsConsistent(h, s, ops[0]);
      RunFrom(h, Apply(h, s, ops[0]), ops[1..])
  }

  /** Check_ compares vRandom.size() with the counters first. */
  lemma SizesAgree(h: Hasher, s: State)
    requires Consistent(h, s)
    ensures |s.random| == |s.info| == s.nTried + s.nNew
  {
    RandomCovers(s.info, s.random);
    assert NewIds(s.info) - {} == NewIds(s.info);
    assert TriedIds(s.info) + NewIds(s.info) == s.info.Keys;
    assert TriedIds(s.info) !! NewIds(s.info);
  }

  lemma {:induction false} RandomCovers(info: Infos, random: seq<int>)
    requires RandomOk(info, random)
    ensures |random| == |info|
  {
    var listed := set i | 0 <= i < |random| :: IdAt(random, i);
    DistinctCount(random);
    forall id | id in info
      ensures id in listed
    {
      assert IdAt(random, info[id].nRandomPos) == id;
    }
    assert listed == info.Keys;
  }

  lemma {:induction false} DistinctCount(random: seq<int>)
    requires forall i, j | 0 <= i < j < |random| :: IdAt(random, i) != IdAt(random, j)
    ensures |set i | 0 <= i < |random| :: IdAt(random, i)| == |random|
  {
    var all := set i | 0 <= i < |random| :: IdAt(random, i);
    if random == [] {
      assert all == {};
    } else {
      var front := random[..|random| - 1];
      var last := IdAt(random, |random| - 1);
      assert forall i | 0 <= i < |front| :: IdAt(front, i) == IdAt(random, i);
      DistinctCount(front);
      assert all == (set i | 0 <= i < |front| :: IdAt(front, i)) + {last};
    }
  }
}
