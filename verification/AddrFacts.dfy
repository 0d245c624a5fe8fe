/** What the address manager records about a node over a whole run, and how that decides which addresses are
    handed out and which give way. */
module AddrFacts {
  import opened AddrState
  import opened AddrOps
  import opened AddrHistory

  // --- One entry by itself ------------------------------------------------------------------

  /** What an operation makes of the entry of a service. */
  function Follow(service: Service, i: AddrInfo, nLastGood: int, o: Op): AddrInfo {
    match o
    case AddOp(addr, source, nTimePenalty, isRoutable, nNow, _) =>
      if isRoutable && addr.service.ip == service.ip
      then Seen(i, addr, if addr.service.ip == source then 0 else nTimePenalty, nNow) else i
    case GoodOp(addr, nTime) => if addr == service then Succeeded(i, nTime) else i
    case AttemptOp(addr, fCountFailure, nTime) =>
      if addr == service then Tried(i, fCountFailure, nLastGood, nTime) else i
    case ConnectedOp(addr, nTime) => if addr == service then Online(i, nTime) else i
    case SetServicesOp(addr, nServices) => if addr == service then Serving(i, nServices) else i
    case GetAddrOp(_) => i
  }

  /** The last success of anyone. */
  function LastGood(nLastGood: int, o: Op): int {
    if o.GoodOp? then o.nTime else nLastGood
  }

  function FollowRun(service: Service, i: AddrInfo, nLastGood: int, ops: seq<Op>): AddrInfo
    decreases |ops|
  {
    if ops == [] then i
    else FollowRun(service, Follow(service, i, nLastGood, ops[0]), LastGood(nLastGood, ops[0]), ops[1..])
  }

  lemma FollowSame(service: Service, a: AddrInfo, b: AddrInfo, nLastGood: int, o: Op)
    requires SameFacts(a, b)
    ensures SameFacts(Follow(service, a, nLastGood, o), Follow(service, b, nLastGood, o))
  {
  }

  lemma {:induction false} FollowRunSame(service: Service, a: AddrInfo, b: AddrInfo, nLastGood: int, ops: seq<Op>)
    requires SameFacts(a, b)
    ensures SameFacts(FollowRun(service, a, nLastGood, ops), FollowRun(service, b, nLastGood, ops))
    decreases |ops|
  {
    hide SameFacts, Follow;
    if ops != [] {
      FollowSame(service, a, b, nLastGood, ops[0]);
      FollowRunSame(service, Follow(service, a, nLastGood, ops[0]), Follow(service, b, nLastGood, ops[0]),
                    LastGood(nLastGood, ops[0]), ops[1..]);
    }
  }

  // --- The manager does just that -----------------------------------------------------------

  /** A consistent manager finds an entry by its address. */
  lemma FoundById(h: Hasher, s: State, x: int, addr: Service)
    requires Consistent(h, s) && x in s.info
    ensures x >= 0 && x < s.nIdCount && Find(s, s.info[x].addr.service.ip) == x
    ensures Names(s, Find(s, addr.ip), addr) && Find(s, addr.ip) == x <==> addr == s.info[x].addr.service
    ensures Find(s, addr.ip) == x <==> addr.ip == s.info[x].addr.service.ip
  {
    hide RandomOk, TriedOk, NewOk, RefsOk, TimesOk, CountsOk;
  }

  lemma AddFollows(h: Hasher, s: State, addr: Address, source: NetAddr, nTimePenalty: int, isRoutable: bool, nNow: int,
                   rnd: nat, x: int)
    requires Consistent(h, s) && x in s.info
    ensures var t := Add(h, s, addr, source, nTimePenalty, isRoutable, nNow, rnd).0;
            var o := AddOp(addr, source, nTimePenalty, isRoutable, nNow, rnd);
            x in t.info ==> SameFacts(Follow(s.info[x].addr.service, s.info[x], s.nLastGood, o), t.info[x])
  {
    hide RandomOk, TriedOk, NewOk, TimesOk, CountsOk, RefsOk, Placed, Seen, NewSlot, IsTerrible;
    FoundById(h, s, x, addr.service);
    if isRoutable {
      var penalty := if addr.service.ip == source then 0 else nTimePenalty;
      var id := Find(s, addr.service.ip);
      if id >= 0 {
        var i := Seen(s.info[id], addr, penalty, nNow);
        SeenKeepsInv(h, s, id, addr, penalty, nNow);
        SeenSame(s.info[id], addr, penalty, nNow);
        if WantsReference(i, addr, rnd) {
          PlacedFrames(h, Touched(s, id, i), id, source, nNow, {}, 0);
        }
      } else {
        var nTime: nat := Max(0, addr.nTime - penalty);
        CreatePenalized(h, s, addr, source, nTime);
        var c := Created(s, addr.(nTime := nTime), source);
        PlacedFrames(h, c.(nNew := c.nNew + 1), s.nIdCount, source, nNow, {s.nIdCount}, 1);
      }
    }
  }

  lemma GoodFollows(h: Hasher, s: State, addr: Service, nTime: nat, x: int)
    requires Consistent(h, s) && x in s.info
    ensures var t := Good(h, s, addr, nTime);
            && t.nLastGood == nTime
            && (x in t.info ==>
                  SameFacts(Follow(s.info[x].addr.service, s.info[x], s.nLastGood, GoodOp(addr, nTime)), t.info[x]))
  {
    hide RandomOk, TriedOk, NewOk, TimesOk, CountsOk, RefsOk, MadeTried;
    FoundById(h, s, x, addr);
    GoodEffect(h, s, addr, nTime);
    var s1, id := s.(nLastGood := nTime), Find(s, addr.ip);
    if Names(s, id, addr) {
      var i := Succeeded(s1.info[id], nTime);
      if !i.fInTried {
        TouchKeepsInv(h, s1, id, i, {}, 0);
        MadeTriedForgets(h, Touched(s1, id, i), id);
      }
    }
  }

  lemma {:induction false} ShuffleFollows(s: State, picks: seq<nat>, m: nat, x: int)
    requires Drawn(picks, |s.random|) && m <= |picks| && x in s.info
    ensures var t := Shuffled(s, picks, m); x in t.info && SameFacts(s.info[x], t.info[x]) && t.nLastGood == s.nLastGood
  {
    if m > 0 {
      ShuffleFollows(s, picks, m - 1, x);
    }
  }

  /** Every operation does to every entry exactly what it does to one by itself. */
  lemma ApplyFollows(h: Hasher, s: State, o: Op, x: int)
    requires Consistent(h, s) && Legal(s, o) && x in s.info
    ensures var t := Apply(h, s, o);
            && t.nLastGood == LastGood(s.nLastGood, o)
            && (x in t.info ==> SameFacts(Follow(s.info[x].addr.service, s.info[x], s.nLastGood, o), t.info[x]))
  {
    hide Consistent, Add, Good, Shuffled, Follow;
    match o
    case AddOp(addr, source, nTimePenalty, isRoutable, nNow, rnd) =>
      AddFollows(h, s, addr, source, nTimePenalty, isRoutable, nNow, rnd, x);
      AddEffect(h, s, addr, source, nTimePenalty, isRoutable, nNow, rnd);
    case GoodOp(addr, nTime) => GoodFollows(h, s, addr, nTime, x);
    case GetAddrOp(picks) =>
      ShuffleFollows(s, picks, |picks|, x);
      FollowsNothing(s.info[x], s.nLastGood, o);
    case _ => TouchFollows(h, s, o, x);
  }

  lemma FollowsNothing(i: AddrInfo, nLastGood: int, o: Op)
    requires o.GetAddrOp?
    ensures Follow(i.addr.service, i, nLastGood, o) == i
  {
  }

  lemma TouchFollows(h: Hasher, s: State, o: Op, x: int)
    requires Consistent(h, s) && x in s.info && (o.AttemptOp? || o.ConnectedOp? || o.SetServicesOp?)
    ensures var t := Apply(h, s, o);
            && t.nLastGood == s.nLastGood
            && (x in t.info ==> SameFacts(Follow(s.info[x].addr.service, s.info[x], s.nLastGood, o), t.info[x]))
  {
    hide Consistent, Find, Tried, Online, Serving;
    FoundById(h, s, x, o.service);
  }

  /** Over any run, what is known about a node that is not forgotten is what the operations make of it by
      itself. */
  lemma {:induction false} RunFollows(h: Hasher, s: State, ops: seq<Op>, x: int)
    requires Consistent(h, s) && LegalRun(h, s, ops) && x in s.info && x in RunFrom(h, s, ops).info
    ensures SameFacts(FollowRun(s.info[x].addr.service, s.info[x], s.nLastGood, ops), RunFrom(h, s, ops).info[x])
    decreases |ops|
  {
    hide Consistent, Apply, Follow, SameFacts;
    if ops == [] {
      SameAsItself(s.info[x]);
    } else {
      var o, service := ops[0], s.info[x].addr.service;
      ApplyKeepsConsistent(h, s, o);
      ApplyEffect(h, s, o);
      ApplyFollows(h, s, o, x);
      FoundById(h, s, x, service);
      var t := Apply(h, s, o);
      RunEffect(h, t, ops[1..]);
      assert x in t.info && t.info[x].addr.service == service;
      RunFollows(h, t, ops[1..], x);
      FollowRunSame(service, Follow(service, s.info[x], s.nLastGood, o), t.info[x], t.nLastGood, ops[1..]);
      SameThrough(FollowRun(service, Follow(service, s.info[x], s.nLastGood, o), t.nLastGood, ops[1..]),
                  FollowRun(service, t.info[x], t.nLastGood, ops[1..]), RunFrom(h, t, ops[1..]).info[x]);
    }
  }

  lemma SameAsItself(a: AddrInfo)
    ensures SameFacts(a, a)
  {
  }

  lemma SameThrough(a: AddrInfo, b: AddrInfo, c: AddrInfo)
    requires SameFacts(a, b) && SameFacts(b, c)
    ensures SameFacts(a, c)
  {
  }

  // --- Failures -----------------------------------------------------------------------------

  /** A call of Attempt for the service that counts failures. */
  predicate Counting(service: Service, o: Op) {
    o.AttemptOp? && o.service == service && o.fCountFailure
  }

  predicate AnyCounting(service: Service, ops: seq<Op>) {
    exists k | 0 <= k < |ops| :: Counting(service, ops[k])
  }

  /** No success of anyone, and the attempts come after the last one. */
  predicate Failing(service: Service, nLastGood: int, ops: seq<Op>) {
    forall k | 0 <= k < |ops| ::
      !ops[k].GoodOp? && (ops[k].AttemptOp? && ops[k].service == service ==> ops[k].nTime >= nLastGood)
  }

  /** As long as nobody succeeds, at most one failure is counted, and exactly one if a call counts failures and
      none was counted since the last success. */
  lemma {:induction false} FailuresCountOnce(service: Service, i: AddrInfo, nLastGood: int, ops: seq<Op>)
    requires Failing(service, nLastGood, ops)
    ensures FollowRun(service, i, nLastGood, ops).nAttempts ==
            i.nAttempts + if AnyCounting(service, ops) && i.nLastCountAttempt < nLastGood then 1 else 0
    decreases |ops|
  {
    hide Seen;
    if ops != [] {
      var o, rest := ops[0], ops[1..];
      var j := Follow(service, i, nLastGood, o);
      assert forall k | 0 <= k < |rest| :: rest[k] == ops[k + 1];
      SeenKeepsTries(i, o);
      FailuresCountOnce(service, j, nLastGood, rest);
      if AnyCounting(service, ops) && !Counting(service, o) {
        var k :| 0 <= k < |ops| && Counting(service, ops[k]);
        assert Counting(service, rest[k - 1]);
      }
    }
  }

  lemma SeenKeepsTries(i: AddrInfo, o: Op)
    ensures o.AddOp? ==>
              var j := Seen(i, o.addr, if o.addr.service.ip == o.source then 0 else o.nTimePenalty, o.nNow);
              j == i.(addr := j.addr)
  {
  }

  function Successes(ops: seq<Op>): nat {
    if ops == [] then 0 else Successes(ops[1..]) + if ops[0].GoodOp? then 1 else 0
  }

  /** The attempts for the service come after the last success of anyone. */
  predicate InOrder(service: Service, nLastGood: int, ops: seq<Op>)
    decreases |ops|
  {
    ops == [] ||
    (&& (ops[0].AttemptOp? && ops[0].service == service ==> ops[0].nTime >= nLastGood)
     && InOrder(service, LastGood(nLastGood, ops[0]), ops[1..]))
  }

  /** Over any run a node can be charged one failure, and one more for each success of anyone. */
  lemma {:induction false} FailuresAtMost(service: Service, i: AddrInfo, nLastGood: int, ops: seq<Op>)
    requires InOrder(service, nLastGood, ops) && i.nAttempts >= 0
    ensures FollowRun(service, i, nLastGood, ops).nAttempts <=
            i.nAttempts + Successes(ops) + if i.nLastCountAttempt < nLastGood then 1 else 0
    decreases |ops|
  {
    hide Seen;
    if ops != [] {
      SeenKeepsTries(i, ops[0]);
      FailuresAtMost(service, Follow(service, i, nLastGood, ops[0]), LastGood(nLastGood, ops[0]), ops[1..]);
    }
  }

  /** The operation is about another node. */
  predicate Elsewhere(service: Service, o: Op) {
    match o
    case AddOp(addr, _, _, _, _, _) => addr.service.ip != service.ip
    case GetAddrOp(_) => true
    case _ => o.service != service
  }

  /** Operations about other nodes leave a node alone. */
  lemma {:induction false} OthersLeaveAlone(service: Service, i: AddrInfo, nLastGood: int, ops: seq<Op>)
    requires forall k | 0 <= k < |ops| :: Elsewhere(service, ops[k])
    ensures FollowRun(service, i, nLastGood, ops) == i
    decreases |ops|
  {
    if ops != [] {
      assert Elsewhere(service, ops[0]);
      assert forall k | 0 <= k < |ops[1..]| :: ops[1..][k] == ops[k + 1];
      OthersLeaveAlone(service, i, LastGood(nLastGood, ops[0]), ops[1..]);
    }
  }

  /** In the manager: over a run without a success of anyone, one failure is charged to a node at most, exactly if
      an attempt counts failures and none was counted since the last success. */
  lemma RunFailures(h: Hasher, s: State, ops: seq<Op>, x: int)
    requires Consistent(h, s) && LegalRun(h, s, ops) && x in s.info && x in RunFrom(h, s, ops).info
    requires Failing(s.info[x].addr.service, s.nLastGood, ops)
    ensures RunFrom(h, s, ops).info[x].nAttempts == s.info[x].nAttempts +
            if AnyCounting(s.info[x].addr.service, ops) && s.info[x].nLastCountAttempt < s.nLastGood then 1 else 0
  {
    hide Consistent, FollowRun, Failing, AnyCounting;
    RunFollows(h, s, ops, x);
    FailuresCountOnce(s.info[x].addr.service, s.info[x], s.nLastGood, ops);
  }

  /** One attempt: the entry of exactly this service was tried now, and nothing else in the manager changes. */
  lemma AttemptEffect(h: Hasher, s: State, addr: Service, fCountFailure: bool, nTime: nat)
    requires Consistent(h, s)
    ensures var t := Attempt(s, addr, fCountFailure, nTime);
            && t == s.(info := t.info) && t.info.Keys == s.info.Keys
            && (forall x <- s.info :: s.info[x].addr.service != addr ==> t.info[x] == s.info[x])
            && (forall x <- s.info :: s.info[x].addr.service == addr ==> t.info[x].nLastTry == nTime)
  {
    hide RandomOk, TriedOk, NewOk, RefsOk, TimesOk, CountsOk;
    forall x | x in s.info
      ensures Names(s, Find(s, addr.ip), addr) && Find(s, addr.ip) == x <==> addr == s.info[x].addr.service
    {
      FoundById(h, s, x, addr);
    }
  }

  // --- Terrible entries ---------------------------------------------------------------------

  /** An entry is worth keeping exactly if it was tried in the last minute, or it was seen within thirty days and
      not in the future, and has either failed less than three times or succeeded once, and has either failed less
      than ten times or succeeded within a week. */
  lemma KeptIff(i: AddrInfo, nNow: int)
    ensures !IsTerrible(i, nNow) <==>
            || (i.nLastTry != 0 && nNow <= i.nLastTry + 60)
            || (&& 0 < i.addr.nTime <= nNow + 600 && nNow <= i.addr.nTime + 2_592_000
                && (i.nAttempts < 3 || i.nLastSuccess != 0)
                && (i.nAttempts < 10 || nNow <= i.nLastSuccess + 604_800))
  {
  }

  /** Nothing tried in the last minute is removed. */
  lemma TriedIsKept(i: AddrInfo, fCountFailure: bool, nLastGood: int, nTime: int, nNow: int)
    requires nTime > 0 && nNow <= nTime + 60
    ensures !IsTerrible(Tried(i, fCountFailure, nLastGood, nTime), nNow)
  {
    KeptIff(Tried(i, fCountFailure, nLastGood, nTime), nNow);
  }

  /** Three counted failures, each after a success of someone else, and never a success: terrible from a minute
      after the last on. */
  lemma FailsThrice(service: Service, i: AddrInfo, nLastGood: int, other: Service, times: seq<nat>, nNow: int)
    requires i.nLastSuccess == 0 && i.nAttempts >= 0 && i.nLastCountAttempt < nLastGood && other != service
    requires |times| == 5 && (forall k | 0 <= k < 4 :: times[k] < times[k + 1]) && nNow > times[4] + 60
    ensures var ops := [AttemptOp(service, true, times[0]), GoodOp(other, times[1]), AttemptOp(service, true, times[2]),
                        GoodOp(other, times[3]), AttemptOp(service, true, times[4])];
            var j := FollowRun(service, i, nLastGood, ops);
            j.nAttempts == i.nAttempts + 3 && IsTerrible(j, nNow)
  {
    hide IsTerrible;
    var ops := [AttemptOp(service, true, times[0]), GoodOp(other, times[1]), AttemptOp(service, true, times[2]),
                GoodOp(other, times[3]), AttemptOp(service, true, times[4])];
    var a := Follow(service, i, nLastGood, ops[0]);
    var b := Follow(service, a, times[1], ops[2]);
    var c := Follow(service, b, times[3], ops[4]);
    assert ops[1..] == [ops[1], ops[2], ops[3], ops[4]] && ops[1..][1..] == [ops[2], ops[3], ops[4]];
    assert [ops[2], ops[3], ops[4]][1..] == [ops[3], ops[4]] && [ops[3], ops[4]][1..] == [ops[4]];
    assert [ops[4]][1..] == [] && FollowRun(service, c, times[3], []) == c;
    assert FollowRun(service, b, times[3], [ops[4]]) == c;
    assert FollowRun(service, b, times[1], [ops[3], ops[4]]) == c;
    assert FollowRun(service, a, nLastGood, ops[1..]) == FollowRun(service, b, times[1], [ops[3], ops[4]]);
    KeptIff(c, nNow);
  }

  /** A success clears the failures, and for a week no number of failures makes the entry terrible. */
  lemma SuccessClears(i: AddrInfo, nTime: nat, nAttempts: int, nLastTry: int, nNow: int)
    requires nTime > 0 && nNow <= nTime + 604_800
    requires 0 < i.addr.nTime <= nNow + 600 && nNow <= i.addr.nTime + 2_592_000
    ensures Succeeded(i, nTime).nAttempts == 0
    ensures !IsTerrible(Succeeded(i, nTime).(nAttempts := nAttempts, nLastTry := nLastTry), nNow)
  {
    KeptIff(Succeeded(i, nTime).(nAttempts := nAttempts, nLastTry := nLastTry), nNow);
  }

  /** Terrible entries are not handed out. */
  lemma TerribleOmitted(h: Hasher, s: State, m: nat, nNow: int, x: int)
    requires Consistent(h, s) && m <= |s.random| && x in s.info && IsTerrible(s.info[x], nNow)
    ensures RandomOk(s.info, s.random)
    ensures forall a <- Listed(s.info, s.random, m, nNow) :: a.service.ip != s.info[x].addr.service.ip
  {
    hide Inv, IsTerrible, Find, RandomOk;
    ListedIs(h, s, m, nNow);
    FoundById(h, s, x, s.info[x].addr.service);
  }

  /** A terrible entry loses its slot to an unknown address that wants it. */
  lemma TerribleReplaced(h: Hasher, s: State, addr: Address, source: NetAddr, nNow: int, x: int)
    requires Consistent(h, s) && addr.service.ip !in s.byAddr && x in s.info && IsTerrible(s.info[x], nNow)
    requires var slot := SourceSlot(h, s.nKey, addr.service, source);
             slot in s.newTable && Held(s.newTable, slot) == x
    ensures var t, slot := Add(h, s, addr, source, 0, true, nNow, 0).0, SourceSlot(h, s.nKey, addr.service, source);
            && Find(t, addr.service.ip) == s.nIdCount && t.newTable == s.newTable[slot := s.nIdCount]
            && s.nIdCount in t.info && t.info[s.nIdCount].addr == addr
  {
    hide Inv, Add, IsTerrible, SourceSlot;
    AddStores(h, s, addr, source, 0, nNow, 0);
  }

  // --- Times and services -------------------------------------------------------------------

  /** After a connection the time is at most twenty minutes behind, and it never goes back. */
  lemma OnlineTime(i: AddrInfo, nTime: nat)
    ensures var j := Online(i, nTime);
            && j == i.(addr := i.addr.(nTime := j.addr.nTime))
            && j.addr.nTime >= i.addr.nTime && j.addr.nTime >= nTime - 1200
            && (j.addr.nTime == i.addr.nTime || j.addr.nTime == nTime)
            && (i.addr.nTime >= nTime - 1200 ==> j == i)
  {
  }

  /** A sighting adds services. The time moves to that of the sighting less the penalty, and only if it lags
      by more than an hour, or a day when the node is not online; a sighting without a time does not count. */
  lemma SeenTime(i: AddrInfo, addr: Address, nTimePenalty: int, nNow: int)
    ensures var j := Seen(i, addr, nTimePenalty, nNow);
            var lag := if addr.nTime > nNow - 86_400 then 3600 else 86_400;
            var behind := addr.nTime - nTimePenalty - lag;
            && j == i.(addr := j.addr) && j.addr.service == i.addr.service
            && j.addr.nServices == i.addr.nServices + addr.nServices
            && (addr.nTime == 0 || (i.addr.nTime != 0 && i.addr.nTime >= behind) ==> j.addr.nTime == i.addr.nTime)
            && (addr.nTime != 0 && (i.addr.nTime == 0 || i.addr.nTime < behind) ==>
                  j.addr.nTime == Max(0, addr.nTime - nTimePenalty))
            && (addr.nTime != 0 ==> j.addr.nTime >= behind)
  {
  }

  /** SetServices replaces the services of exactly this service, and nothing else. */
  lemma SetServicesEffect(h: Hasher, s: State, addr: Service, nServices: set<nat>)
    requires Consistent(h, s)
    ensures var t := SetServices(s, addr, nServices);
            && t == s.(info := t.info) && t.info.Keys == s.info.Keys
            && forall x <- s.info ::
                 if s.info[x].addr.service != addr then t.info[x] == s.info[x]
                 else
                   && t.info[x].addr.nServices == nServices
                   && t.info[x] == s.info[x].(addr := s.info[x].addr.(nServices := t.info[x].addr.nServices))
  {
    hide RandomOk, TriedOk, NewOk, RefsOk, TimesOk, CountsOk;
    forall x | x in s.info
      ensures Names(s, Find(s, addr.ip), addr) && Find(s, addr.ip) == x <==> addr == s.info[x].addr.service
    {
      FoundById(h, s, x, addr);
    }
  }

  // --- References ---------------------------------------------------------------------------

  /** A known address gains a reference exactly if it is new, has less than eight, was seen later than it is known
      for, the number drawn below two to the number of its references is zero, and the slot for this source is
      not its own already and can be had. */
  lemma GainsReference(h: Hasher, s: State, addr: Address, source: NetAddr, nTimePenalty: int, nNow: int, rnd: nat)
    requires Consistent(h, s) && addr.service.ip in s.byAddr
    ensures var t, id := Add(h, s, addr, source, nTimePenalty, true, nNow, rnd).0, Find(s, addr.service.ip);
            var known, slot := s.info[id], SourceSlot(h, s.nKey, s.info[id].addr.service, source);
            && id in t.info
            && (t.info[id].nRefCount == known.nRefCount + 1 <==>
                && !known.fInTried && known.nRefCount < 8 && rnd == 0 && addr.nTime > t.info[id].addr.nTime
                && (slot in s.newTable ==> Held(s.newTable, slot) != id && Held(s.newTable, slot) in s.info &&
                                           IsTerrible(s.info[Held(s.newTable, slot)], nNow)))
  {
    hide RandomOk, TriedOk, NewOk, TimesOk, CountsOk, Placed, Seen, NewSlot, IsTerrible;
    var penalty := if addr.service.ip == source then 0 else nTimePenalty;
    var id := Find(s, addr.service.ip);
    var i := Seen(s.info[id], addr, penalty, nNow);
    SeenKeepsInv(h, s, id, addr, penalty, nNow);
    SeenSame(s.info[id], addr, penalty, nNow);
    FactorIs(i.nRefCount);
    if WantsReference(i, addr, rnd) {
      PlacedEntry(h, Touched(s, id, i), id, source, nNow, {}, 0);
    }
  }

  /** The number below which is drawn doubles with each reference. */
  lemma {:induction false} FactorIs(n: int)
    ensures n <= 0 ==> Factor(n) == 1
    ensures n > 0 ==> Factor(n) == 2 * Factor(n - 1) > 1
    decreases n
  {
  }
}
