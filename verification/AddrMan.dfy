/** The address manager object: the fields and loops of `CAddrMan`, proved against AddrOps. */
module AddrMan {
  import opened AddrState
  import opened AddrOps

  /** The occupied slots of a bucket array, where -1 marks a free one. */
  ghost function TableOf(a: array2<int>): Table
    reads a
  {
    map b: nat, p: nat | b < a.Length0 && p < a.Length1 && a[b, p] != -1 :: Slot(b, p) := a[b, p]
  }

  method SetSlot(a: array2<int>, b: nat, p: nat, v: int)
    requires b < a.Length0 && p < a.Length1
    modifies a
    ensures a[b, p] == v
    ensures TableOf(a) == if v == -1 then old(TableOf(a)) - {Slot(b, p)} else old(TableOf(a))[Slot(b, p) := v]
  {
    a[b, p] := v;
    ghost var want := if v == -1 then old(TableOf(a)) - {Slot(b, p)} else old(TableOf(a))[Slot(b, p) := v];
    forall s: Slot
      ensures s in TableOf(a) <==> s in want
      ensures s in TableOf(a) ==> TableOf(a)[s] == want[s]
    {
      assert s == Slot(s.bucket, s.pos);
    }
  }

  lemma TableAt(a: array2<int>, b: nat, p: nat)
    requires b < a.Length0 && p < a.Length1
    ensures a[b, p] != -1 <==> Slot(b, p) in TableOf(a)
    ensures a[b, p] != -1 ==> Held(TableOf(a), Slot(b, p)) == a[b, p]
  {
  }

  class CAddrMan {
    const h: Hasher
    var nIdCount: nat
    var mapInfo: Infos
    var mapAddr: map<NetAddr, int>
    var vRandom: seq<int>
    var nTried: int
    const vvTried: array2<int>
    var nNew: int
    const vvNew: array2<int>
    var nLastGood: int
    var nKey: nat

    ghost function View(): State
      reads this, vvTried, vvNew
    {
      State(nIdCount, mapInfo, mapAddr, vRandom, nTried, TableOf(vvTried), nNew, TableOf(vvNew), nLastGood, nKey)
    }

    ghost predicate Shaped() {
      && vvNew.Length0 == NEW_BUCKETS && vvNew.Length1 == BUCKET_SIZE
      && vvTried.Length0 == TRIED_BUCKETS && vvTried.Length1 == BUCKET_SIZE
      && vvNew != vvTried
    }

    ghost predicate Valid()
      reads this, vvTried, vvNew
    {
      Shaped() && Consistent(h, View())
    }

    constructor (h: Hasher, nKey: nat)
      requires nKey != 0
      ensures Valid() && View() == Cleared(nKey) && this.h == h && fresh(vvNew) && fresh(vvTried)
    {
      this.h := h;
      this.nKey := nKey;
      nIdCount, mapInfo, mapAddr, vRandom := 0, map[], map[], [];
      nTried, nNew, nLastGood := 0, 0, 1;
      vvNew := new int[NEW_BUCKETS, BUCKET_SIZE]((_, _) => -1);
      vvTried := new int[TRIED_BUCKETS, BUCKET_SIZE]((_, _) => -1);
      new;
      assert TableOf(vvNew) == map[] && TableOf(vvTried) == map[];
      ClearedConsistent(h, nKey);
    }

    method FindEntry(a: NetAddr) returns (nId: int)
      ensures nId == Find(View(), a)
    {
      if a !in mapAddr {
        return -1;
      }
      nId := IdOf(mapAddr, a);
      if nId !in mapInfo || nId < 0 {
        return -1;
      }
    }

    method Create(addr: Address, source: NetAddr) returns (nId: int)
      modifies this
      ensures nId == old(nIdCount) && View() == Created(old(View()), addr, source)
    {
      nId := nIdCount;
      nIdCount := nIdCount + 1;
      mapInfo := mapInfo[nId := AddrInfo(addr, source, 0, 0, 0, 0, 0, false, |vRandom|)];
      mapAddr := mapAddr[addr.service.ip := nId];
      vRandom := vRandom + [nId];
    }

    method SwapRandom(nRndPos1: nat, nRndPos2: nat)
      requires nRndPos1 < |vRandom| && nRndPos2 < |vRandom|
      requires RandomOk(mapInfo, vRandom)
      modifies this`mapInfo, this`vRandom
      ensures View() == Swapped(old(View()), nRndPos1, nRndPos2)
    {
      if nRndPos1 == nRndPos2 {
        return;
      }
      var nId1 := IdAt(vRandom, nRndPos1);
      var nId2 := IdAt(vRandom, nRndPos2);
      assert nId1 in mapInfo && nId2 in mapInfo;
      mapInfo := mapInfo[nId1 := mapInfo[nId1].(nRandomPos := nRndPos2)];
      mapInfo := mapInfo[nId2 := mapInfo[nId2].(nRandomPos := nRndPos1)];
      vRandom := vRandom[nRndPos1 := nId2];
      vRandom := vRandom[nRndPos2 := nId1];
    }

    /** The three asserts at its head are what it requires. */
    method Delete(nId: int)
      requires RandomOk(mapInfo, vRandom) && nId in mapInfo && !mapInfo[nId].fInTried && mapInfo[nId].nRefCount == 0
      modifies this
      ensures View() == Deleted(old(View()), nId)
    {
      hide TableOf;
      SwapRandom(mapInfo[nId].nRandomPos, |vRandom| - 1);
      vRandom := vRandom[..|vRandom| - 1];
      mapAddr := mapAddr - {mapInfo[nId].addr.service.ip};
      mapInfo := mapInfo - {nId};
      nNew := nNew - 1;
    }

    method ClearNew(nUBucket: nat, nUBucketPos: nat, ghost floating: set<int>, ghost extra: int)
      requires Shaped() && nUBucket < NEW_BUCKETS && nUBucketPos < BUCKET_SIZE
      requires Inv(h, View(), floating, extra)
      modifies this, vvNew
      ensures View() == (ClearNewReady(h, old(View()), Slot(nUBucket, nUBucketPos), floating, extra);
                         ClearedNew(old(View()), Slot(nUBucket, nUBucketPos)))
      ensures vvNew[nUBucket, nUBucketPos] == -1
    {
      hide RandomOk, AddrOk, TriedOk, TimesOk, CountsOk, NewOk, RefsOk, Deleted, TableOf;
      ghost var slot := Slot(nUBucket, nUBucketPos);
      TableAt(vvNew, nUBucket, nUBucketPos);
      ClearNewReady(h, View(), slot, floating, extra);
      if vvNew[nUBucket, nUBucketPos] != -1 {
        var nIdDelete := vvNew[nUBucket, nUBucketPos];
        UnlinkKeepsInv(h, View(), slot, floating, extra);
        assert nIdDelete in mapInfo && mapInfo[nIdDelete].nRefCount > 0;
        mapInfo := mapInfo[nIdDelete := mapInfo[nIdDelete].(nRefCount := mapInfo[nIdDelete].nRefCount - 1)];
        SetSlot(vvNew, nUBucket, nUBucketPos, -1);
        assert View() == Unlinked(old(View()), slot);
        if mapInfo[nIdDelete].nRefCount == 0 {
          DeleteReady(h, View(), nIdDelete, floating + {nIdDelete}, extra + 1);
          Delete(nIdDelete);
        }
      }
    }

    /** The loop at the head of MakeTried: an entry sits at one known position of each bucket. */
    method LeaveNewBuckets(nId: int)
      requires Valid() && nId in mapInfo && !mapInfo[nId].fInTried
      modifies this`mapInfo, this`nNew, vvNew
      ensures View() == Detached(old(View()), nId)
    {
      hide RandomOk, AddrOk, TriedOk, TimesOk, CountsOk, NewOk, RefsOk, TableOf;
      ghost var t0 := TableOf(vvNew);
      CountIs(h, View(), nId);
      IdIsNat(h, View(), {}, 0, nId);
      assert t0 - Gone(t0, nId, 0) == t0;
      for bucket := 0 to NEW_BUCKETS
        invariant nNew == old(nNew) && TableOf(vvTried) == old(TableOf(vvTried))
        invariant TableOf(vvNew) == t0 - Gone(t0, nId, bucket)
        invariant mapInfo == Recounted(old(mapInfo), nId, |Refs(t0, nId)| - |Gone(t0, nId, bucket)|)
      {
        var pos := GetBucketPosition(h, nKey, true, bucket, mapInfo[nId].addr.service);
        TableAt(vvNew, bucket, pos);
        GoneStep(h, old(View()), nId, bucket);
        if vvNew[bucket, pos] == nId {
          SetSlot(vvNew, bucket, pos, -1);
          mapInfo := mapInfo[nId := mapInfo[nId].(nRefCount := mapInfo[nId].nRefCount - 1)];
        }
      }
      nNew := nNew - 1;
      GoneAll(h, old(View()), nId);
      assert mapInfo[nId].nRefCount == 0;
      assert mapInfo == Recounted(old(mapInfo), nId, 0);
      assert TableOf(vvNew) == t0 - Refs(t0, nId);
    }

    /** No assert of the cascade fires: the slots it expects free are free. */
    method MakeTried(nId: int)
      requires Valid() && nId in mapInfo && !mapInfo[nId].fInTried
      modifies this, vvNew, vvTried
      ensures View() == MadeTried(h, old(View()), nId)
    {
      hide RandomOk, AddrOk, TriedOk, TimesOk, CountsOk, NewOk, RefsOk, TableOf, Detached, MadeRoom;
      DetachKeepsInv(h, View(), nId, {}, 0);
      IdIsNat(h, View(), {}, 0, nId);
      assert {} + {nId} == {nId};
      LeaveNewBuckets(nId);
      ghost var d := View();
      DetachedEntry(old(View()), nId);
      var nKBucket := GetTriedBucket(h, nKey, mapInfo[nId].addr.service);
      var nKBucketPos := GetBucketPosition(h, nKey, false, nKBucket, mapInfo[nId].addr.service);
      TableAt(vvTried, nKBucket, nKBucketPos);
      if vvTried[nKBucket, nKBucketPos] != -1 {
        var nIdEvict := vvTried[nKBucket, nKBucketPos];
        TriedEntry(h, d, {nId}, 0, Slot(nKBucket, nKBucketPos));
        MakeRoomFrames(h, d, nIdEvict, {nId});
        MakeRoom(nIdEvict, nKBucket, nKBucketPos, {nId});
        assert Untouched(d, View(), nId);
        TableAt(vvTried, nKBucket, nKBucketPos);
      }
      assert vvTried[nKBucket, nKBucketPos] == -1;
      ghost var m := View();
      SetSlot(vvTried, nKBucket, nKBucketPos, nId);
      nTried := nTried + 1;
      mapInfo := mapInfo[nId := mapInfo[nId].(fInTried := true)];
      assert View() == Promoted(h, m, nId);
    }

    /** The search loop of Good_, from a random bucket on. It always finds one, so the exit of Good_
        for an entry without bucket is never taken. */
    method FindBucket(nId: int, nRnd: nat) returns (nUBucket: int)
      requires Valid() && nId in mapInfo && !mapInfo[nId].fInTried && nRnd < NEW_BUCKETS
      ensures 0 <= nUBucket < NEW_BUCKETS && InBucket(h, View(), nId, nUBucket)
    {
      hide Inv, TableOf;
      IdIsNat(h, View(), {}, 0, nId);
      nUBucket := -1;
      for n := 0 to NEW_BUCKETS
        invariant forall k | 0 <= k < n :: !InBucket(h, View(), nId, Around(k, nRnd))
      {
        var nB := Around(n, nRnd);
        var nBpos := GetBucketPosition(h, nKey, true, nB, mapInfo[nId].addr.service);
        TableAt(vvNew, nB, nBpos);
        if vvNew[nB, nBpos] == nId {
          return nB;
        }
      }
      BucketFound(h, View(), nId, nRnd);
    }

    method Good_(addr: Service, nTime: nat, nRnd: nat)
      requires Valid() && nRnd < NEW_BUCKETS
      modifies this, vvNew, vvTried
      ensures Valid() <==> nTime != 0 || !Names(old(View()), Find(old(View()), addr.ip), addr)
      ensures View() == Good(h, old(View()), addr, nTime)
    {
      hide RandomOk, AddrOk, TriedOk, CountsOk, NewOk, RefsOk, TimesOk, TableOf, MadeTried;
      GoodKeepsConsistent(h, View(), addr, nTime);
      nLastGood := nTime;
      var nId := FindEntry(addr.ip);
      if nId < 0 || mapInfo[nId].addr.service != addr {
        return;
      }
      ghost var s := View();
      var info := mapInfo[nId].(nLastSuccess := nTime, nLastTry := nTime, nAttempts := 0);
      mapInfo := mapInfo[nId := info];
      if info.fInTried {
        return;
      }
      TouchKeepsInv(h, s, nId, info, {}, 0);
      var nUBucket := FindBucket(nId, nRnd);
      assert nUBucket != -1;
      MakeTried(nId);
    }

    method Attempt_(addr: Service, fCountFailure: bool, nTime: nat)
      requires Valid()
      modifies this`mapInfo
      ensures Valid() && View() == Attempt(old(View()), addr, fCountFailure, nTime)
    {
      hide Consistent, TableOf;
      TouchesKeepConsistent(h, View(), addr, fCountFailure, nTime, {});
      var nId := FindEntry(addr.ip);
      if nId < 0 || mapInfo[nId].addr.service != addr {
        return;
      }
      mapInfo := mapInfo[nId := mapInfo[nId].(nLastTry := nTime)];
      if fCountFailure && mapInfo[nId].nLastCountAttempt < nLastGood {
        mapInfo := mapInfo[nId := mapInfo[nId].(nLastCountAttempt := nTime, nAttempts := mapInfo[nId].nAttempts + 1)];
      }
      assert View() == Attempt(old(View()), addr, fCountFailure, nTime);
    }

    /** The loop that computes how unlikely another reference is. */
    static method ReferenceFactor(nRefCount: int) returns (nFactor: int)
      ensures nFactor == Factor(nRefCount)
    {
      nFactor := 1;
      var n := 0;
      while n < nRefCount
        invariant 0 <= n && (n <= nRefCount || n == 0) && nFactor == Factor(n)
      {
        nFactor := nFactor * 2;
        n := n + 1;
      }
    }

    /** `rnd` is what RandomInt(nFactor) draws; `nNow` is the adjusted time. */
    method Add_(addr: Address, source: NetAddr, nTimePenalty: int, isRoutable: bool, nNow: int, rnd: nat)
      returns (fNew: bool)
      requires Valid()
      modifies this, vvNew
      ensures Valid() && (View(), fNew) == Add(h, old(View()), addr, source, nTimePenalty, isRoutable, nNow, rnd)
    {
      hide Inv, TableOf, Placed, Seen, Factor, Created, WantsReference;
      AddKeepsConsistent(h, View(), addr, source, nTimePenalty, isRoutable, nNow, rnd);
      fNew := false;
      if !isRoutable {
        return;
      }
      var nId := FindEntry(addr.service.ip);
      var penalty := if addr.service.ip == source then 0 else nTimePenalty;
      if nId >= 0 {
        AddKnown(nId, addr, source, penalty, nNow, rnd);
      } else {
        AddUnknown(addr, source, Max(0, addr.nTime - penalty), nNow);
        fNew := true;
      }
    }

    /** The part of Add_ for an address not seen before. */
    method AddUnknown(addr: Address, source: NetAddr, nTime: nat, nNow: int)
      requires Valid() && Find(View(), addr.service.ip) < 0
      modifies this, vvNew
      ensures Shaped() && View() == (CreatePenalized(h, old(View()), addr, source, nTime);
                                     var c := Created(old(View()), addr.(nTime := nTime), source);
                                     Placed(h, c.(nNew := c.nNew + 1), old(nIdCount), source, nNow, {old(nIdCount)}, 1))
    {
      hide Inv, TableOf, Placed, Find;
      CreatePenalized(h, View(), addr, source, nTime);
      var nId := Create(addr, source);
      mapInfo := mapInfo[nId := mapInfo[nId].(addr := addr.(nTime := nTime))];
      nNew := nNew + 1;
      ghost var c := Created(old(View()), addr.(nTime := nTime), source);
      assert View() == c.(nNew := c.nNew + 1);
      Place(nId, source, nNow, {nId}, 1);
    }

    /** The part of Add_ for an address that is known: its entry may get another reference. */
    method AddKnown(nId: int, addr: Address, source: NetAddr, penalty: int, nNow: int, rnd: nat)
      requires Valid() && nId in mapInfo
      modifies this, vvNew
      ensures Shaped() && View() == (SeenKeepsInv(h, old(View()), nId, addr, penalty, nNow);
                                     var i := Seen(old(mapInfo)[nId], addr, penalty, nNow);
                                     var t := Touched(old(View()), nId, i);
                                     if WantsReference(i, addr, rnd) then Placed(h, t, nId, source, nNow, {}, 0) else t)
    {
      hide Inv, TableOf, Placed, Seen, Factor;
      SeenKeepsInv(h, View(), nId, addr, penalty, nNow);
      UpdateSeen(nId, addr, penalty, nNow);
      if addr.nTime == 0 || (mapInfo[nId].addr.nTime != 0 && addr.nTime <= mapInfo[nId].addr.nTime) {
        return;
      }
      if mapInfo[nId].fInTried {
        return;
      }
      if mapInfo[nId].nRefCount == NEW_BUCKETS_PER_ADDRESS {
        return;
      }
      var nFactor := ReferenceFactor(mapInfo[nId].nRefCount);
      if nFactor > 1 && rnd != 0 {
        return;
      }
      Place(nId, source, nNow, {}, 0);
    }

    /** The part of Add_ that updates the time and services of a known entry. */
    method UpdateSeen(nId: int, addr: Address, nTimePenalty: int, nNow: int)
      requires nId in mapInfo
      modifies this`mapInfo
      ensures mapInfo == old(mapInfo)[nId := Seen(old(mapInfo)[nId], addr, nTimePenalty, nNow)]
    {
      var fCurrentlyOnline := nNow - addr.nTime < 24 * 60 * 60;
      var nUpdateInterval := if fCurrentlyOnline then 60 * 60 else 24 * 60 * 60;
      var info := mapInfo[nId];
      if addr.nTime != 0 && (info.addr.nTime == 0 || info.addr.nTime < addr.nTime - nUpdateInterval - nTimePenalty) {
        info := info.(addr := info.addr.(nTime := Max(0, addr.nTime - nTimePenalty)));
      }
      info := info.(addr := info.addr.(nServices := info.addr.nServices + addr.nServices));
      mapInfo := mapInfo[nId := info];
    }

    /** The second half of Add_. */
    method Place(nId: int, source: NetAddr, nNow: int, ghost floating: set<int>, ghost extra: int)
      requires Shaped() && Inv(h, View(), floating, extra) && nId in mapInfo && !mapInfo[nId].fInTried
      requires mapInfo[nId].nRefCount == 0 ==> nId in floating
      modifies this, vvNew
      ensures View() == Placed(h, old(View()), nId, source, nNow, floating, extra)
    {
      hide RandomOk, AddrOk, TriedOk, CountsOk, NewOk, RefsOk, TimesOk, TableOf, ClearedNew, Deleted, IsTerrible;
      ghost var s := View();
      IdIsNat(h, s, floating, extra, nId);
      var nUBucket := GetNewBucket(h, nKey, mapInfo[nId].addr.service, source);
      var nUBucketPos := GetBucketPosition(h, nKey, true, nUBucket, mapInfo[nId].addr.service);
      ghost var slot := Slot(nUBucket, nUBucketPos);
      TableAt(vvNew, nUBucket, nUBucketPos);
      ClearNewReady(h, s, slot, floating, extra);
      if vvNew[nUBucket, nUBucketPos] != nId {
        var fInsert := vvNew[nUBucket, nUBucketPos] == -1;
        if !fInsert {
          var infoExisting := mapInfo[vvNew[nUBucket, nUBucketPos]];
          if IsTerrible(infoExisting, nNow) || (infoExisting.nRefCount > 1 && mapInfo[nId].nRefCount == 0) {
            fInsert := true;
          }
        }
        if fInsert {
          ClearNewFrames(h, s, slot, floating, extra);
          ClearNew(nUBucket, nUBucketPos, floating, extra);
          assert Untouched(s, ClearedNew(s, slot), nId);
          mapInfo := mapInfo[nId := mapInfo[nId].(nRefCount := mapInfo[nId].nRefCount + 1)];
          SetSlot(vvNew, nUBucket, nUBucketPos, nId);
        } else if mapInfo[nId].nRefCount == 0 {
          DeleteReady(h, View(), nId, floating, extra);
          Delete(nId);
        }
      }
    }

    /** `picks[n]` is the random position drawn in the n-th turn. At most 23% of the entries are
        returned, and at most 2500; none of them is terrible, and they are the entries that the
        shuffle brought to the front of vRandom. */
    method GetAddr_(picks: seq<nat>, nNow: int) returns (vAddr: seq<Address>, m: nat)
      requires Valid() && |picks| == |vRandom| && Drawn(picks, |vRandom|)
      modifies this`mapInfo, this`vRandom
      ensures Valid() && m <= |picks| && View() == Shuffled(old(View()), picks, m)
      ensures |vAddr| <= 2500 && 100 * |vAddr| <= 23 * |vRandom|
      ensures m == |vRandom| || |vAddr| == 2500 || |vAddr| == 23 * |vRandom| / 100
      ensures RandomOk(mapInfo, vRandom) && m <= |vRandom| && vAddr == Listed(mapInfo, vRandom, m, nNow)
    {
      hide AddrOk, TriedOk, CountsOk, NewOk, RefsOk, TimesOk, RandomOk, TableOf, Swapped;
      var nNodes := 23 * |vRandom| / 100;
      if nNodes > 2500 {
        nNodes := 2500;
      }
      vAddr, m := [], 0;
      while m < |vRandom|
        invariant m <= |vRandom| == |picks| && |vAddr| <= nNodes
        invariant View() == Shuffled(old(View()), picks, m) && Consistent(h, View())
        invariant vAddr == Listed(mapInfo, vRandom, m, nNow)
      {
        if |vAddr| >= nNodes {
          break;
        }
        var nRndPos := picks[m];
        SwapStep(h, View(), m, nRndPos);
        ListedSwap(View(), m, nRndPos, m, nNow);
        SwapRandom(m, nRndPos);
        SwapStep(h, View(), m, m);
        var ai := mapInfo[IdAt(vRandom, m)];
        if !IsTerrible(ai, nNow) {
          vAddr := vAddr + [ai.addr];
        }
        m := m + 1;
      }
    }

    method Connected_(addr: Service, nTime: nat)
      requires Valid()
      modifies this`mapInfo
      ensures Valid() && View() == Connected(old(View()), addr, nTime)
    {
      hide Consistent, TableOf;
      TouchesKeepConsistent(h, View(), addr, false, nTime, {});
      var nId := FindEntry(addr.ip);
      if nId < 0 || mapInfo[nId].addr.service != addr {
        return;
      }
      if nTime - mapInfo[nId].addr.nTime > 20 * 60 {
        mapInfo := mapInfo[nId := mapInfo[nId].(addr := mapInfo[nId].addr.(nTime := nTime))];
      }
    }

    method SetServices_(addr: Service, nServices: set<nat>)
      requires Valid()
      modifies this`mapInfo
      ensures Valid() && View() == SetServices(old(View()), addr, nServices)
    {
      hide Consistent, TableOf;
      TouchesKeepConsistent(h, View(), addr, false, 0, nServices);
      var nId := FindEntry(addr.ip);
      if nId < 0 || mapInfo[nId].addr.service != addr {
        return;
      }
      mapInfo := mapInfo[nId := mapInfo[nId].(addr := mapInfo[nId].addr.(nServices := nServices))];
    }

    method MakeRoom(nIdEvict: int, nKBucket: nat, nKBucketPos: nat, ghost floating: set<int>)
      requires Shaped() && Inv(h, View(), floating, 0)
      requires nKBucket < TRIED_BUCKETS && nKBucketPos < BUCKET_SIZE && vvTried[nKBucket, nKBucketPos] == nIdEvict
      requires nIdEvict in mapInfo && mapInfo[nIdEvict].fInTried
      requires Slot(nKBucket, nKBucketPos) == TriedSlot(h, nKey, mapInfo[nIdEvict].addr.service)
      modifies this, vvNew, vvTried
      ensures View() == MadeRoom(h, old(View()), nIdEvict, floating)
    {
      hide Inv, TableOf, ClearedNew, Evicted;
      ghost var s := View();
      EvictKeepsInv(h, s, nIdEvict, floating, 0);
      EvictedEntry(h, s, nIdEvict);
      LeaveTried(nIdEvict, nKBucket, nKBucketPos, floating);
      ghost var e := View();
      var nUBucket := GetNewBucket(h, nKey, mapInfo[nIdEvict].addr.service, mapInfo[nIdEvict].source);
      var nUBucketPos := GetBucketPosition(h, nKey, true, nUBucket, mapInfo[nIdEvict].addr.service);
      ghost var slot := Slot(nUBucket, nUBucketPos);
      ClearNewReady(h, e, slot, floating + {nIdEvict}, 0);
      ClearNewFrames(h, e, slot, floating + {nIdEvict}, 0);
      ClearNew(nUBucket, nUBucketPos, floating + {nIdEvict}, 0);
      assert Untouched(e, ClearedNew(e, slot), nIdEvict);
      FloatingCount(h, e, floating + {nIdEvict}, 0, nIdEvict);
      IdIsNat(h, e, floating + {nIdEvict}, 0, nIdEvict);
      JoinNew(nIdEvict, nUBucket, nUBucketPos);
    }

    /** Takes an entry out of the tried table. */
    method LeaveTried(nIdEvict: int, nKBucket: nat, nKBucketPos: nat, ghost floating: set<int>)
      requires Shaped() && Inv(h, View(), floating, 0)
      requires nKBucket < TRIED_BUCKETS && nKBucketPos < BUCKET_SIZE && vvTried[nKBucket, nKBucketPos] == nIdEvict
      requires nIdEvict in mapInfo && mapInfo[nIdEvict].fInTried
      requires Slot(nKBucket, nKBucketPos) == TriedSlot(h, nKey, mapInfo[nIdEvict].addr.service)
      modifies this, vvTried
      ensures Shaped() && View() == Evicted(h, old(View()), nIdEvict)
    {
      hide Inv, TableOf;
      IdIsNat(h, View(), floating, 0, nIdEvict);
      mapInfo := mapInfo[nIdEvict := mapInfo[nIdEvict].(fInTried := false)];
      SetSlot(vvTried, nKBucket, nKBucketPos, -1);
      nTried := nTried - 1;
    }

    /** Puts an entry without references into a free slot of the new table. */
    method JoinNew(nId: int, nUBucket: nat, nUBucketPos: nat)
      requires Shaped() && nId in mapInfo && nId >= 0 && mapInfo[nId].nRefCount == 0
      requires nUBucket < NEW_BUCKETS && nUBucketPos < BUCKET_SIZE && vvNew[nUBucket, nUBucketPos] == -1
      modifies this, vvNew
      ensures Shaped() && View() == Linked(old(View()), Slot(nUBucket, nUBucketPos), nId).(nNew := old(View()).nNew + 1)
    {
      hide TableOf;
      mapInfo := mapInfo[nId := mapInfo[nId].(nRefCount := 1)];
      SetSlot(vvNew, nUBucket, nUBucketPos, nId);
      nNew := nNew + 1;
    }
  }

  lemma EvictedEntry(h: Hasher, s: State, id: int)
    requires id in s.info
    ensures var e := Evicted(h, s, id);
            id in e.info && e.nKey == s.nKey && e.info[id] == s.info[id].(fInTried := false)
  {
  }

  /** An id is never the mark of a free slot. */
  lemma IdIsNat(h: Hasher, s: State, floating: set<int>, extra: int, id: int)
    requires Inv(h, s, floating, extra) && id in s.info
    ensures id >= 0
  {
    hide RandomOk, TriedOk, NewOk, RefsOk, TimesOk, CountsOk;
  }

  lemma DeleteReady(h: Hasher, s: State, id: int, floating: set<int>, extra: int)
    requires Inv(h, s, floating, extra) && id in floating
    ensures RandomOk(s.info, s.random) && id in s.info && !s.info[id].fInTried && s.info[id].nRefCount == 0
  {
    hide RandomOk, AddrOk, TriedOk, NewOk, TimesOk, CountsOk;
  }

  lemma TriedEntry(h: Hasher, s: State, floating: set<int>, extra: int, slot: Slot)
    requires Inv(h, s, floating, extra) && slot in s.tried
    ensures var id := Held(s.tried, slot);
            id in s.info && s.info[id].fInTried && slot == TriedSlot(h, s.nKey, s.info[id].addr.service)
  {
    hide RandomOk, AddrOk, NewOk, RefsOk, TimesOk, CountsOk;
  }

  lemma FloatingCount(h: Hasher, s: State, floating: set<int>, extra: int, id: int)
    requires Inv(h, s, floating, extra) && id in floating
    ensures id in s.info && s.info[id].nRefCount == 0
  {
  }

  lemma DetachedEntry(s: State, id: int)
    requires id in s.info
    ensures var d := Detached(s, id);
            && id in d.info && d.info[id] == s.info[id].(nRefCount := 0)
            && d.tried == s.tried && d.nKey == s.nKey
  {
  }

  /** The slots of an entry in the first `bucket` buckets. */
  function Gone(t: Table, id: int, bucket: nat): set<Slot> {
    set slot | slot in Refs(t, id) && slot.bucket < bucket
  }

  lemma CountIs(h: Hasher, s: State, id: int)
    requires Consistent(h, s) && id in s.info
    ensures s.info == Recounted(s.info, id, |Refs(s.newTable, id)| - |Gone(s.newTable, id, 0)|)
    ensures Gone(s.newTable, id, 0) == {}
  {
  }

  lemma GoneStep(h: Hasher, s: State, id: int, bucket: nat)
    requires Consistent(h, s) && id in s.info
    ensures var slot := NewSlot(h, s.nKey, bucket, s.info[id].addr.service);
            var t := s.newTable;
            && slot !in Gone(t, id, bucket)
            && if slot in t && Held(t, slot) == id
               then && Gone(t, id, bucket + 1) == Gone(t, id, bucket) + {slot}
                    && |Gone(t, id, bucket + 1)| == |Gone(t, id, bucket)| + 1
                    && t - Gone(t, id, bucket + 1) == t - Gone(t, id, bucket) - {slot}
               else Gone(t, id, bucket + 1) == Gone(t, id, bucket)
  {
    hide RandomOk, AddrOk, TriedOk, TimesOk, CountsOk, RefsOk;
  }

  lemma GoneAll(h: Hasher, s: State, id: int)
    requires Consistent(h, s) && id in s.info
    ensures Gone(s.newTable, id, NEW_BUCKETS) == Refs(s.newTable, id)
  {
    hide RandomOk, AddrOk, TriedOk, TimesOk, CountsOk, RefsOk;
  }

  /** The entry has a reference in this bucket. */
  predicate InBucket(h: Hasher, s: State, id: int, bucket: nat)
    requires id in s.info
  {
    var slot := NewSlot(h, s.nKey, bucket, s.info[id].addr.service);
    slot in s.newTable && Held(s.newTable, slot) == id
  }

  function Around(k: nat, nRnd: nat): nat {
    (k + nRnd) % NEW_BUCKETS
  }

  /** A new entry is in some bucket, and counting around the circle from anywhere visits it. */
  lemma BucketFound(h: Hasher, s: State, id: int, nRnd: nat)
    requires Consistent(h, s) && id in s.info && !s.info[id].fInTried && nRnd < NEW_BUCKETS
    ensures exists k | 0 <= k < NEW_BUCKETS :: InBucket(h, s, id, Around(k, nRnd))
  {
    hide RandomOk, AddrOk, TriedOk, TimesOk, CountsOk;
    var slot :| slot in Refs(s.newTable, id);
    var k := (slot.bucket + NEW_BUCKETS - nRnd) % NEW_BUCKETS;
    assert Around(k, nRnd) == slot.bucket;
    assert InBucket(h, s, id, Around(k, nRnd));
  }
}
