/** How much of the address manager's tables one group of addresses or of sources can fill. */
module AddrGroups {
  import opened AddrState
  import opened AddrOps
  import opened AddrHistory

  // --- The buckets of a group ---------------------------------------------------------------

  function Buckets(h: Hasher, nKey: nat, group: nat, many: nat, of: nat): (r: set<nat>)
    requires of > 0
    ensures |r| <= many
  {
    if many == 0 then {} else Buckets(h, nKey, group, many - 1, of) + {h.cheapHash([nKey, group, many - 1]) % of}
  }

  lemma {:induction false} InBuckets(h: Hasher, nKey: nat, group: nat, many: nat, of: nat, k: nat)
    requires of > 0 && k < many
    ensures h.cheapHash([nKey, group, k]) % of in Buckets(h, nKey, group, many, of)
  {
    if k < many - 1 {
      InBuckets(h, nKey, group, many - 1, of, k);
    }
  }

  /** The addresses that the sources of one group announce go to at most 64 of the 1024 new buckets. */
  function NewBuckets(h: Hasher, nKey: nat, group: nat): (r: set<nat>)
    ensures |r| <= 64
  {
    Buckets(h, nKey, group, 64, 1024)
  }

  lemma NewBucketInGroup(h: Hasher, nKey: nat, s: Service, source: NetAddr)
    ensures GetNewBucket(h, nKey, s, source) in NewBuckets(h, nKey, h.group(source))
  {
    var hash1 := h.cheapHash([nKey, h.group(s.ip), h.group(source)]);
    InBuckets(h, nKey, h.group(source), 64, 1024, hash1 % 64);
  }

  /** The addresses of one group go to at most 8 of the 256 tried buckets. */
  function TriedBuckets(h: Hasher, nKey: nat, group: nat): (r: set<nat>)
    ensures |r| <= 8
  {
    Buckets(h, nKey, group, 8, 256)
  }

  lemma TriedBucketInGroup(h: Hasher, nKey: nat, s: Service)
    ensures GetTriedBucket(h, nKey, s) in TriedBuckets(h, nKey, h.group(s.ip))
  {
    var hash1 := h.cheapHash([nKey, h.key(s)]);
    InBuckets(h, nKey, h.group(s.ip), 8, 256, hash1 % 8);
  }

  // --- Counting slots -----------------------------------------------------------------------

  /** As many slots as buckets times positions. */
  lemma {:induction false} SlotsAtMost(slots: set<Slot>, buckets: set<nat>, size: nat)
    requires forall k <- slots :: k.bucket in buckets && k.pos < size
    ensures |slots| <= |buckets| * size
    decreases |buckets|
  {
    if |buckets| == 0 {
      assert slots == {};
    } else {
      var b :| b in buckets;
      var here, rest := set k | k in slots && k.bucket == b, set k | k in slots && k.bucket != b;
      assert slots == here + rest && here !! rest;
      SlotsAtMost(rest, buckets - {b}, size);
      BucketAtMost(here, b, size);
      assert |buckets - {b}| == |buckets| - 1;
      assert (|buckets| - 1) * size + size == |buckets| * size;
    }
  }

  lemma {:induction false} BucketAtMost(slots: set<Slot>, b: nat, size: nat)
    requires forall k <- slots :: k.bucket == b && k.pos < size
    ensures |slots| <= size
    decreases size
  {
    if size == 0 {
      assert slots == {};
    } else {
      var rest := slots - {Slot(b, size - 1)};
      BucketAtMost(rest, b, size - 1);
    }
  }

  /** The slots of the tried table with entries of a group of addresses. */
  ghost function TriedSlots(h: Hasher, s: State, group: nat): set<Slot> {
    set k | k in s.tried && Held(s.tried, k) in s.info && h.group(s.info[Held(s.tried, k)].addr.service.ip) == group
  }

  /** In every consistent state, so after every run: a group of addresses has at most 8 tried buckets, and 512
      places in them. */
  lemma TriedOfGroup(h: Hasher, s: State, group: nat)
    requires Consistent(h, s)
    ensures forall k <- TriedSlots(h, s, group) :: k.bucket in TriedBuckets(h, s.nKey, group)
    ensures |TriedSlots(h, s, group)| <= 512
  {
    hide RandomOk, AddrOk, NewOk, RefsOk, TimesOk, CountsOk, GetTriedBucket, TriedBuckets;
    forall k | k in TriedSlots(h, s, group)
      ensures k.bucket in TriedBuckets(h, s.nKey, group) && k.pos < 64
    {
      TriedBucketInGroup(h, s.nKey, s.info[Held(s.tried, k)].addr.service);
    }
    SlotsAtMost(TriedSlots(h, s, group), TriedBuckets(h, s.nKey, group), 64);
  }

  // --- Over a run ---------------------------------------------------------------------------

  /** All that was announced came from these groups: every entry is due to one of them, and is referred to from
      their buckets only. */
  ghost predicate Announced(h: Hasher, s: State, groups: set<nat>) {
    && (forall x <- s.info :: h.group(s.info[x].source) in groups)
    && (forall k <- s.newTable :: InSome(h, s.nKey, groups, k.bucket))
  }

  ghost predicate InSome(h: Hasher, nKey: nat, groups: set<nat>, b: nat) {
    exists g <- groups :: b in NewBuckets(h, nKey, g)
  }

  lemma SlotInSome(h: Hasher, nKey: nat, service: Service, source: NetAddr, groups: set<nat>)
    requires h.group(source) in groups
    ensures InSome(h, nKey, groups, SourceSlot(h, nKey, service, source).bucket)
  {
    NewBucketInGroup(h, nKey, service, source);
  }

  lemma KnownAnnounces(h: Hasher, s: State, addr: Address, source: NetAddr, penalty: int, nNow: int, rnd: nat,
                       groups: set<nat>)
    requires Consistent(h, s) && Announced(h, s, groups) && h.group(source) in groups && Find(s, addr.service.ip) >= 0
    ensures var id := Find(s, addr.service.ip);
            var i := Seen(s.info[id], addr, penalty, nNow);
            && Consistent(h, Touched(s, id, i)) && Announced(h, Touched(s, id, i), groups)
            && (WantsReference(i, addr, rnd) ==>
                  Announced(h, Placed(h, Touched(s, id, i), id, source, nNow, {}, 0), groups))
  {
    hide RandomOk, TriedOk, NewOk, TimesOk, CountsOk, RefsOk, Placed, Seen, SourceSlot, IsTerrible, InSome;
    var id := Find(s, addr.service.ip);
    var i := Seen(s.info[id], addr, penalty, nNow);
    SeenKeepsInv(h, s, id, addr, penalty, nNow);
    SeenSame(s.info[id], addr, penalty, nNow);
    SlotInSome(h, s.nKey, s.info[id].addr.service, source, groups);
    if WantsReference(i, addr, rnd) {
      PlacedFrames(h, Touched(s, id, i), id, source, nNow, {}, 0);
      PlacedEntry(h, Touched(s, id, i), id, source, nNow, {}, 0);
    }
  }

  lemma UnknownAnnounces(h: Hasher, s: State, addr: Address, source: NetAddr, nTime: nat, nNow: int, groups: set<nat>)
    requires Consistent(h, s) && Announced(h, s, groups) && h.group(source) in groups && Find(s, addr.service.ip) < 0
    ensures var c := Created(s, addr.(nTime := nTime), source);
            && Inv(h, c.(nNew := c.nNew + 1), {s.nIdCount}, 1) && s.nIdCount in c.info && !c.info[s.nIdCount].fInTried
            && Announced(h, Placed(h, c.(nNew := c.nNew + 1), s.nIdCount, source, nNow, {s.nIdCount}, 1), groups)
  {
    hide RandomOk, TriedOk, NewOk, TimesOk, CountsOk, RefsOk, Placed, SourceSlot, IsTerrible, InSome;
    CreatePenalized(h, s, addr, source, nTime);
    var c := Created(s, addr.(nTime := nTime), source);
    SlotInSome(h, s.nKey, addr.service, source, groups);
    PlacedFrames(h, c.(nNew := c.nNew + 1), s.nIdCount, source, nNow, {s.nIdCount}, 1);
    PlacedEntry(h, c.(nNew := c.nNew + 1), s.nIdCount, source, nNow, {s.nIdCount}, 1);
  }

  lemma AddAnnounces(h: Hasher, s: State, addr: Address, source: NetAddr, nTimePenalty: int, isRoutable: bool,
                     nNow: int, rnd: nat, groups: set<nat>)
    requires Consistent(h, s) && Announced(h, s, groups) && h.group(source) in groups
    ensures Announced(h, Add(h, s, addr, source, nTimePenalty, isRoutable, nNow, rnd).0, groups)
  {
    hide Inv, Placed, Seen, WantsReference, Announced, Created;
    if isRoutable {
      var penalty := if addr.service.ip == source then 0 else nTimePenalty;
      if Find(s, addr.service.ip) >= 0 {
        KnownAnnounces(h, s, addr, source, penalty, nNow, rnd, groups);
      } else {
        UnknownAnnounces(h, s, addr, source, Max(0, addr.nTime - penalty), nNow, groups);
      }
    }
  }

  /** The evicted entry goes back to a bucket of its own source. */
  lemma GoodAnnounces(h: Hasher, s: State, addr: Service, nTime: nat, groups: set<nat>)
    requires Consistent(h, s) && Announced(h, s, groups)
    ensures Announced(h, Good(h, s, addr, nTime), groups)
  {
    hide RandomOk, TriedOk, NewOk, TimesOk, CountsOk, RefsOk, MadeTried, InSome;
    GoodEffect(h, s, addr, nTime);
    var s1, id := s.(nLastGood := nTime), Find(s, addr.ip);
    if Names(s, id, addr) {
      var i := Succeeded(s1.info[id], nTime);
      if !i.fInTried {
        TouchKeepsInv(h, s1, id, i, {}, 0);
        MadeTriedAnnounces(h, Touched(s1, id, i), id, groups);
      }
    }
  }

  lemma MadeTriedAnnounces(h: Hasher, s: State, id: int, groups: set<nat>)
    requires Consistent(h, s) && id in s.info && !s.info[id].fInTried && Announced(h, s, groups)
    ensures Announced(h, MadeTried(h, s, id), groups)
  {
    hide RandomOk, AddrOk, TriedOk, NewOk, RefsOk, TimesOk, CountsOk, ClearedNew, InSome, TriedSlot, NewSlot;
    MadeTriedForgets(h, s, id);
    DetachKeepsInv(h, s, id, {}, 0);
    assert {} + {id} == {id};
    var d := Detached(s, id);
    var slot := TriedSlot(h, s.nKey, s.info[id].addr.service);
    if slot in d.tried {
      var evictee := Held(d.tried, slot);
      TriedOwner(h, d, slot, {id}, 0);
      EvictKeepsInv(h, d, evictee, {id}, 0);
      var e := Evicted(h, d, evictee);
      SlotInSome(h, s.nKey, d.info[evictee].addr.service, d.info[evictee].source, groups);
      ClearNewFrames(h, e, HomeSlot(h, s.nKey, d.info[evictee]), {id} + {evictee}, 0);
    }
  }

  lemma {:induction false} ShuffleAnnounces(h: Hasher, s: State, picks: seq<nat>, m: nat, groups: set<nat>)
    requires Drawn(picks, |s.random|) && m <= |picks| && Announced(h, s, groups)
    ensures Announced(h, Shuffled(s, picks, m), groups)
  {
    hide InSome;
    if m > 0 {
      ShuffleAnnounces(h, s, picks, m - 1, groups);
    }
  }

  lemma ApplyAnnounces(h: Hasher, s: State, o: Op, groups: set<nat>)
    requires Consistent(h, s) && Legal(s, o) && Announced(h, s, groups) && (o.AddOp? ==> h.group(o.source) in groups)
    ensures Announced(h, Apply(h, s, o), groups) && Apply(h, s, o).nKey == s.nKey
  {
    hide Inv, Add, Good, Shuffled, InSome;
    match o
    case AddOp(addr, source, nTimePenalty, isRoutable, nNow, rnd) =>
      AddAnnounces(h, s, addr, source, nTimePenalty, isRoutable, nNow, rnd, groups);
      AddEffect(h, s, addr, source, nTimePenalty, isRoutable, nNow, rnd);
    case GoodOp(addr, nTime) =>
      GoodAnnounces(h, s, addr, nTime, groups);
      GoodEffect(h, s, addr, nTime);
    case GetAddrOp(picks) =>
      ShuffleAnnounces(h, s, picks, |picks|, groups);
      ShuffleKeepsKey(s, picks, |picks|);
    case _ =>
  }

  lemma {:induction false} ShuffleKeepsKey(s: State, picks: seq<nat>, m: nat)
    requires Drawn(picks, |s.random|) && m <= |picks|
    ensures Shuffled(s, picks, m).nKey == s.nKey
  {
    if m > 0 {
      ShuffleKeepsKey(s, picks, m - 1);
    }
  }

  lemma {:induction false} RunAnnounces(h: Hasher, s: State, ops: seq<Op>, groups: set<nat>)
    requires Consistent(h, s) && LegalRun(h, s, ops) && Announced(h, s, groups)
    requires forall k | 0 <= k < |ops| :: ops[k].AddOp? ==> h.group(ops[k].source) in groups
    ensures Announced(h, RunFrom(h, s, ops), groups) && RunFrom(h, s, ops).nKey == s.nKey
    decreases |ops|
  {
    hide Consistent, Apply, Announced;
    if ops != [] {
      ApplyKeepsConsistent(h, s, ops[0]);
      ApplyAnnounces(h, s, ops[0], groups);
      assert forall k | 0 <= k < |ops[1..]| :: ops[1..][k] == ops[k + 1];
      RunAnnounces(h, Apply(h, s, ops[0]), ops[1..], groups);
    }
  }

  /** The buckets of several groups. */
  ghost function AllBuckets(h: Hasher, nKey: nat, groups: set<nat>): set<nat> {
    set g, b | g in groups && b in NewBuckets(h, nKey, g) :: b
  }

  lemma {:induction false} AllBucketsCount(h: Hasher, nKey: nat, groups: set<nat>)
    ensures |AllBuckets(h, nKey, groups)| <= 64 * |groups|
    decreases |groups|
  {
    hide NewBuckets;
    if |groups| == 0 {
      assert AllBuckets(h, nKey, groups) == {};
    } else {
      var g :| g in groups;
      AllBucketsCount(h, nKey, groups - {g});
      var rest, here := AllBuckets(h, nKey, groups - {g}), NewBuckets(h, nKey, g);
      assert AllBuckets(h, nKey, groups) == rest + here;
      assert |rest + here| <= |rest| + |here|;
    }
  }

  /** Over any run from an empty manager, n groups of sources reach at most 64 n new buckets and 4096 n of their
      65536 places. */
  lemma RunOfGroups(h: Hasher, nKey: nat, ops: seq<Op>, groups: set<nat>)
    requires nKey != 0 && Consistent(h, Cleared(nKey)) && LegalRun(h, Cleared(nKey), ops)
    requires forall k | 0 <= k < |ops| :: ops[k].AddOp? ==> h.group(ops[k].source) in groups
    ensures var t := RunFrom(h, Cleared(nKey), ops);
            && (forall k <- t.newTable :: k.bucket in AllBuckets(h, nKey, groups))
            && |AllBuckets(h, nKey, groups)| <= 64 * |groups| && |t.newTable| <= 4096 * |groups|
  {
    hide Inv, RunFrom, LegalRun, NewBuckets;
    var t := RunFrom(h, Cleared(nKey), ops);
    RunAnnounces(h, Cleared(nKey), ops, groups);
    AllBucketsCount(h, nKey, groups);
    PositionsSmall(h, t);
    forall k | k in t.newTable
      ensures k.bucket in AllBuckets(h, nKey, groups)
    {
      assert InSome(h, nKey, groups, k.bucket);
    }
    SlotsAtMost(t.newTable.Keys, AllBuckets(h, nKey, groups), 64);
    assert |AllBuckets(h, nKey, groups)| * 64 <= 64 * |groups| * 64;
  }

  lemma PositionsSmall(h: Hasher, s: State)
    requires Consistent(h, s)
    ensures forall k <- s.newTable :: k.pos < 64
  {
    hide RandomOk, AddrOk, TriedOk, RefsOk, TimesOk, CountsOk;
  }
}
