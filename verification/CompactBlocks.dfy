/** Compact block reconstruction (blockencodings.cpp), after BIP 152. Slot numbers and the offset of the
    scan for empty slots have 16 bits. */
module CompactBlocks {
  import opened Options
  import opened BlockSlots
  import opened PoolScan
  import opened IndexCodec

  datatype Prefilled = Prefilled(index: nat, tx: Tx)

  datatype Message = Message(headerIsNull: bool, shortIds: seq<nat>, prefilled: seq<Prefilled>)

  // --- Prefilled transactions ---------------------------------------------------------------

  /** The slot of the i-th prefilled transaction: each index counts from the slot after the last. */
  function SlotOf(p: seq<Prefilled>, i: nat): (r: int)
    requires i < |p|
    ensures r >= i
  {
    if i == 0 then p[0].index else SlotOf(p, i - 1) + p[i].index + 1
  }

  /** The i-th prefilled transaction is acceptable. */
  predicate Acceptable(m: Message, i: nat)
    requires i < |m.prefilled|
  {
    !m.prefilled[i].tx.isNull && SlotOf(m.prefilled, i) < TWO16 && SlotOf(m.prefilled, i) <= |m.shortIds| + i
  }

  predicate AllAcceptable(m: Message, n: nat)
    requires n <= |m.prefilled|
  {
    forall i: nat | i < n :: Acceptable(m, i)
  }

  function Total(m: Message): nat { |m.shortIds| + |m.prefilled| }

  /** The slots after `n` prefilled transactions. */
  function Placed(m: Message, n: nat): (r: Slots)
    requires n <= |m.prefilled| && AllAcceptable(m, n)
    ensures |r| == Total(m)
  {
    if n == 0 then Empty(Total(m))
    else
      assert Acceptable(m, n - 1);
      Placed(m, n - 1)[SlotOf(m.prefilled, n - 1) := Some(m.prefilled[n - 1].tx)]
  }

  lemma {:induction false} SlotsAscend(p: seq<Prefilled>, i: nat, j: nat)
    requires i < j < |p|
    ensures SlotOf(p, i) < SlotOf(p, j)
  {
    if i < j - 1 {
      SlotsAscend(p, i, j - 1);
    }
  }

  lemma {:induction false} SlotsApart(p: seq<Prefilled>, i: nat, j: nat)
    requires i <= j < |p|
    ensures SlotOf(p, i) + (j - i) <= SlotOf(p, j)
    decreases j
  {
    if i < j {
      SlotsApart(p, i, j - 1);
    }
  }

  /** The tests in order come to this: every prefilled transaction is there and has a place in the block that
      16 bits can name. */
  lemma AcceptableIff(m: Message)
    ensures AllAcceptable(m, |m.prefilled|) <==> forall i: nat | i < |m.prefilled| :: HasPlace(m, i)
  {
    forall i: nat | i < |m.prefilled|
      ensures AllAcceptable(m, |m.prefilled|) ==> HasPlace(m, i)
      ensures (forall j: nat | j < |m.prefilled| :: HasPlace(m, j)) ==> Acceptable(m, i)
    {
      SlotsApart(m.prefilled, i, |m.prefilled| - 1);
      assert AllAcceptable(m, |m.prefilled|) ==> Acceptable(m, i);
      assert (forall j: nat | j < |m.prefilled| :: HasPlace(m, j)) ==> HasPlace(m, |m.prefilled| - 1) && HasPlace(m, i);
    }
  }

  predicate HasPlace(m: Message, i: nat)
    requires i < |m.prefilled|
  {
    !m.prefilled[i].tx.isNull && SlotOf(m.prefilled, i) < Total(m) && SlotOf(m.prefilled, i) < 65536
  }

  /** The prefilled transactions take that many different slots, and the others stay empty. */
  lemma {:induction false} PlacedIs(m: Message, n: nat)
    requires n <= |m.prefilled| && AllAcceptable(m, n)
    ensures |Gaps(Placed(m, n))| == Total(m) - n
    ensures forall i: nat | i < n :: Acceptable(m, i) && Placed(m, n)[SlotOf(m.prefilled, i)] == Some(m.prefilled[i].tx)
    ensures forall s | 0 <= s < Total(m) :: Placed(m, n)[s].Some? ==>
            exists i: nat | i < n :: SlotOf(m.prefilled, i) == s
  {
    hide Gaps;
    if n == 0 {
      AllEmpty(Total(m));
    } else {
      PlacedIs(m, n - 1);
      var before, slot := Placed(m, n - 1), SlotOf(m.prefilled, n - 1);
      assert Acceptable(m, n - 1);
      forall i: nat | i < n - 1
        ensures SlotOf(m.prefilled, i) < slot
      {
        SlotsAscend(m.prefilled, i, n - 1);
      }
      assert before[slot].None?;
      GapFilled(before, slot, m.prefilled[n - 1].tx);
    }
  }

  /** Filled slots have 16-bit numbers. */
  ghost predicate LowFilled(a: Slots) {
    forall s | 0 <= s < |a| :: a[s].Some? ==> s < TWO16
  }

  lemma PlacedLow(m: Message)
    requires AllAcceptable(m, |m.prefilled|)
    ensures LowFilled(Placed(m, |m.prefilled|))
  {
    hide Gaps, Placed;
    PlacedIs(m, |m.prefilled|);
  }

  /** Behind the first 65536 slots all are empty, so the others can be counted. */
  lemma GapsBelow(m: Message)
    requires AllAcceptable(m, |m.prefilled|) && Total(m) >= TWO16
    ensures |Gaps(Placed(m, |m.prefilled|)[..TWO16])| == TWO16 - |m.prefilled|
  {
    hide Gaps, Placed;
    PlacedIs(m, |m.prefilled|);
    PlacedLow(m);
    TailGaps(Placed(m, |m.prefilled|), TWO16);
  }

  // --- What a message describes -------------------------------------------------------------

  /** The message is a compact form of the block: prefilled transactions in their slots, and the
      short ids of the others in order. */
  ghost predicate Describes(short: ShortIds, m: Message, block: seq<Tx>) {
    && |block| == Total(m) && AllAcceptable(m, |m.prefilled|)
    && (forall i: nat | i < |m.prefilled| :: Acceptable(m, i) && block[SlotOf(m.prefilled, i)] == m.prefilled[i].tx)
    && (var gaps := Gaps(Placed(m, |m.prefilled|));
        |gaps| == |m.shortIds| && forall k | 0 <= k < |gaps| :: m.shortIds[k] == short(block[gaps[k]].hash))
  }

  /** No transaction found in a pool is mistaken for one of the block. */
  ghost predicate NoClash(short: ShortIds, block: seq<Tx>, pool: seq<Tx>) {
    forall i, s | 0 <= i < |pool| && 0 <= s < |block| :: short(pool[i].hash) == short(block[s].hash) ==>
        pool[i] == block[s]
  }

  lemma NoClashEither(short: ShortIds, block: seq<Tx>, pool: seq<Tx>, extra: seq<Tx>)
    requires NoClash(short, block, pool + extra)
    ensures NoClash(short, block, pool) && NoClash(short, block, extra)
  {
    assert forall i | 0 <= i < |pool| :: (pool + extra)[i] == pool[i];
    assert forall i | 0 <= i < |extra| :: (pool + extra)[|pool| + i] == extra[i];
  }

  /** The short ids of all transactions but the first. */
  function ShortIdsOf(short: ShortIds, block: seq<Tx>): (r: seq<nat>)
    requires |block| > 0
    ensures |r| == |block| - 1
  {
    seq<nat>(|block| - 1, k requires 0 <= k < |block| - 1 => short(block[k + 1].hash))
  }

  /** The compact form a node sends: the first transaction in full, the rest by short id. */
  method Compress(short: ShortIds, block: seq<Tx>) returns (m: Message)
    requires |block| > 0 && !block[0].isNull
    ensures Describes(short, m, block) && !m.headerIsNull && |m.prefilled| == 1 && Total(m) == |block|
    ensures AllAcceptable(m, |m.prefilled|) && m.shortIds == ShortIdsOf(short, block)
  {
    var ids: seq<nat> := [];
    var i := 1;
    while i < |block|
      invariant 1 <= i <= |block| && |ids| == i - 1 && forall k | 0 <= k < |ids| :: ids[k] == short(block[k + 1].hash)
    {
      ids := ids + [short(block[i].hash)];
      i := i + 1;
    }
    m := Message(false, ids, [Prefilled(0, block[0])]);
    CoinbaseFirst(m);
  }

  /** With only the first slot taken the k-th empty slot is slot k + 1. */
  lemma CoinbaseFirst(m: Message)
    requires |m.prefilled| == 1 && m.prefilled[0].index == 0 && !m.prefilled[0].tx.isNull
    ensures AllAcceptable(m, 1)
    ensures var gaps := Gaps(Placed(m, 1)); |gaps| == |m.shortIds| && forall k | 0 <= k < |gaps| :: gaps[k] == k + 1
  {
    assert Acceptable(m, 0);
    var a := Placed(m, 1);
    assert Placed(m, 0) == Empty(Total(m));
    assert a == Empty(Total(m))[0 := Some(m.prefilled[0].tx)];
    GapsAfterFirst(a, |a|);
    assert a[..|a|] == a;
  }

  lemma {:induction false} GapsAfterFirst(a: Slots, n: nat)
    requires 0 < n <= |a| && a[0].Some? && forall i | 1 <= i < |a| :: a[i].None?
    ensures var gaps := Gaps(a[..n]); |gaps| == n - 1 && forall k | 0 <= k < |gaps| :: gaps[k] == k + 1
  {
    GapsNext(a, n - 1);
    if n == 1 {
      assert a[..0] == [];
    } else {
      GapsAfterFirst(a, n - 1);
    }
  }

  // --- Slots for the short ids --------------------------------------------------------------

  /** The short ids by the slot they stand for, as far as they were read. */
  ghost predicate MapsTo(ids: map<nat, nat>, short: seq<nat>, gaps: seq<nat>, n: nat)
    requires n <= |short| && |gaps| == |short|
  {
    && (forall k | 0 <= k < n :: short[k] in ids)
    && (forall id <- ids :: exists k | 0 <= k < n :: short[k] == id && gaps[k] == ids[id])
  }

  ghost predicate Unique(short: seq<nat>) {
    forall j, k | 0 <= j < k < |short| :: short[j] != short[k]
  }

  /** Slot numbers as they are stored. */
  function Wrapped(gaps: seq<nat>): (r: seq<nat>)
    ensures |r| == |gaps| && forall k | 0 <= k < |r| :: r[k] == Wrap16(gaps[k])
  {
    seq(|gaps|, k requires 0 <= k < |gaps| => Wrap16(gaps[k]))
  }

  lemma MapNone(short: seq<nat>, gaps: seq<nat>)
    requires |gaps| == |short|
    ensures MapsTo(map[], short, gaps, 0) && forall a: Slots :: Gaps(a[..0]) == []
  {
  }

  lemma MapNext(ids: map<nat, nat>, short: seq<nat>, gaps: seq<nat>, n: nat)
    requires n < |short| && |gaps| == |short| && MapsTo(ids, short, gaps, n)
    ensures MapsTo(ids[short[n] := gaps[n]], short, gaps, n + 1)
  {
    var more := ids[short[n] := gaps[n]];
    forall id | id in more
      ensures exists k | 0 <= k < n + 1 :: short[k] == id && gaps[k] == more[id]
    {
      if id == short[n] {
        assert short[n] == id && gaps[n] == more[id];
      } else {
        var k :| 0 <= k < n && short[k] == id && gaps[k] == ids[id];
      }
    }
  }

  /** As many keys as short ids means that no two are the same. */
  lemma UniqueIds(ids: map<nat, nat>, short: seq<nat>, gaps: seq<nat>)
    requires |gaps| == |short| && MapsTo(ids, short, gaps, |short|)
    ensures |ids| == |short| <==> Unique(short)
  {
    var keys := set k | 0 <= k < |short| :: short[k];
    assert keys == ids.Keys;
    KeysDistinct(short);
    if Unique(short) {
      UniqueKeys(short);
    }
  }

  lemma {:induction false} KeysDistinct(short: seq<nat>)
    ensures |set k | 0 <= k < |short| :: short[k]| <= |short|
    ensures |set k | 0 <= k < |short| :: short[k]| == |short| ==> Unique(short)
  {
    var keys := set k | 0 <= k < |short| :: short[k];
    if short == [] {
      assert keys == {};
    } else {
      var n := |short| - 1;
      var front := short[..n];
      var fewer := set k | 0 <= k < |front| :: front[k];
      KeysDistinct(front);
      assert keys == fewer + {short[n]} by {
        forall x | x in keys
          ensures x in fewer + {short[n]}
        {
          var k :| 0 <= k < |short| && short[k] == x;
          if k < n {
            assert front[k] == x;
          }
        }
        forall x | x in fewer
          ensures x in keys
        {
          var k :| 0 <= k < |front| && front[k] == x;
          assert short[k] == x;
        }
      }
      if |keys| == |short| {
        assert short[n] !in fewer;
        forall j, k | 0 <= j < k < |short|
          ensures short[j] != short[k]
        {
          assert front[j] == short[j] && front[j] in fewer;
          if k < n {
            assert front[k] == short[k];
          }
        }
      }
    }
  }

  lemma {:induction false} UniqueKeys(short: seq<nat>)
    requires Unique(short)
    ensures |set k | 0 <= k < |short| :: short[k]| == |short|
  {
    var keys := set k | 0 <= k < |short| :: short[k];
    if short == [] {
      assert keys == {};
    } else {
      var n := |short| - 1;
      var front := short[..n];
      var fewer := set k | 0 <= k < |front| :: front[k];
      UniqueKeys(front);
      assert forall k | 0 <= k < n :: front[k] == short[k];
      forall x | x in keys
        ensures x in fewer + {short[n]}
      {
        var k :| 0 <= k < |short| && short[k] == x;
        assert k < n ==> front[k] == x;
      }
      assert short[n] !in fewer;
      assert keys == fewer + {short[n]};
    }
  }

  /** When no two short ids are the same each has the slot with its number. */
  lemma MappedAt(ids: map<nat, nat>, short: seq<nat>, slots: seq<nat>, k: nat)
    requires |slots| == |short| == |ids| && MapsTo(ids, short, slots, |short|) && k < |short|
    ensures short[k] in ids && ids[short[k]] == slots[k]
  {
    UniqueIds(ids, short, slots);
    var l :| 0 <= l < |short| && short[l] == short[k] && slots[l] == ids[short[k]];
  }

  /** Each short id has an empty slot of its own. */
  ghost predicate OwnSlots(ids: map<nat, nat>, placed: Slots) {
    OneEach(ids) && forall id <- ids :: ids[id] < |placed| && placed[ids[id]].None?
  }

  /** In any message that is read so far, the short ids get empty slots of their own exactly if it has at
      most 65536 transactions. */
  lemma OwnSlotsIff(m: Message, ids: map<nat, nat>)
    requires AllAcceptable(m, |m.prefilled|) && |ids| == |m.shortIds|
    requires |Gaps(Placed(m, |m.prefilled|))| == |m.shortIds|
    requires MapsTo(ids, m.shortIds, Wrapped(Gaps(Placed(m, |m.prefilled|))), |m.shortIds|)
    ensures OwnSlots(ids, Placed(m, |m.prefilled|)) <==> Total(m) <= TWO16
  {
    hide Gaps, Placed, OwnSlots, MapsTo, AllAcceptable;
    var placed := Placed(m, |m.prefilled|);
    if Total(m) <= TWO16 {
      NotWrapped(placed);
      MapFits(ids, m.shortIds, placed);
    } else if OwnSlots(ids, placed) {
      OwnSlotsBelow(ids, m.shortIds, placed);
      GapsBelow(m);
      ImageSize(ids);
      OwnSlotsEach(ids, placed);
      var below := Gaps(placed[..TWO16]);
      KeysDistinct(below);
      SubsetSize(Image(ids), set k | 0 <= k < |below| :: below[k]);
      assert false;
    }
  }

  lemma OwnSlotsEach(ids: map<nat, nat>, placed: Slots)
    requires OwnSlots(ids, placed)
    ensures OneEach(ids)
  {
  }

  lemma NotWrapped(a: Slots)
    requires |a| <= TWO16
    ensures Wrapped(Gaps(a)) == Gaps(a)
  {
  }

  lemma MapFits(ids: map<nat, nat>, short: seq<nat>, placed: Slots)
    requires |Gaps(placed)| == |short| && MapsTo(ids, short, Gaps(placed), |short|)
    ensures OwnSlots(ids, placed)
  {
    hide Gaps;
    forall id | id in ids
      ensures ids[id] < |placed| && placed[ids[id]].None?
    {
      var k :| 0 <= k < |short| && short[k] == id && Gaps(placed)[k] == ids[id];
    }
    forall i, j | i in ids && j in ids && i != j
      ensures ids[i] != ids[j]
    {
      var k :| 0 <= k < |short| && short[k] == i && Gaps(placed)[k] == ids[i];
      var l :| 0 <= l < |short| && short[l] == j && Gaps(placed)[l] == ids[j];
    }
  }

  /** Stored slot numbers that are empty slots are among the first 65536. */
  lemma OwnSlotsBelow(ids: map<nat, nat>, short: seq<nat>, placed: Slots)
    requires OwnSlots(ids, placed) && |placed| >= TWO16 && |Gaps(placed)| == |short|
    requires MapsTo(ids, short, Wrapped(Gaps(placed)), |short|)
    ensures var below := Gaps(placed[..TWO16]); Image(ids) <= set k | 0 <= k < |below| :: below[k]
  {
    hide Gaps;
    var below := Gaps(placed[..TWO16]);
    forall s | s in Image(ids)
      ensures s in set k | 0 <= k < |below| :: below[k]
    {
      var id :| id in ids && ids[id] == s;
      var k :| 0 <= k < |short| && short[k] == id && Wrapped(Gaps(placed))[k] == ids[id];
      GapListed(placed[..TWO16], s);
      var l :| 0 <= l < |below| && below[l] == s;
    }
  }

  lemma {:induction false} SubsetSize(a: set<nat>, b: set<nat>)
    requires a <= b
    ensures |a| <= |b|
  {
    assert b == a + (b - a);
  }

  /** All stored slot numbers are inside the array. */
  lemma WrappedInRange(ids: map<nat, nat>, short: seq<nat>, placed: Slots)
    requires |Gaps(placed)| == |short| && MapsTo(ids, short, Wrapped(Gaps(placed)), |short|)
    ensures InRange(ids, |placed|)
  {
    hide Gaps;
    forall id | id in ids
      ensures ids[id] < |placed|
    {
      var k :| 0 <= k < |short| && short[k] == id && Wrapped(Gaps(placed))[k] == ids[id];
      WrapAtMost(Gaps(placed)[k]);
    }
  }

  lemma WrapAtMost(n: nat)
    ensures Wrap16(n) <= n && Wrap16(n) < TWO16
  {
  }

  /** The scan for the first empty slot goes on for ever exactly if 65536 transactions are prefilled. */
  lemma EndlessIff(m: Message)
    requires AllAcceptable(m, |m.prefilled|) && m.shortIds != []
    ensures |Gaps(Placed(m, |m.prefilled|))| == |m.shortIds|
    ensures Gaps(Placed(m, |m.prefilled|))[0] >= TWO16 <==> |m.prefilled| >= TWO16
  {
    hide Gaps, Placed, AllAcceptable;
    var placed := Placed(m, |m.prefilled|);
    PlacedIs(m, |m.prefilled|);
    var first := Gaps(placed)[0];
    if first >= TWO16 {
      GapsBelow(m);
      NoneBelow(placed, TWO16);
    } else if |m.prefilled| >= TWO16 {
      GapsBelow(m);
      GapListed(placed[..TWO16], first);
      assert false;
    }
  }

  /** The first gap at or behind `p` means that there is none before. */
  lemma NoneBelow(a: Slots, p: nat)
    requires p <= |a| && |Gaps(a)| > 0 && Gaps(a)[0] >= p
    ensures |Gaps(a[..p])| == 0
  {
    hide Gaps;
    if |Gaps(a[..p])| > 0 {
      GapsPrefix(a, p);
    }
  }

  /** A message that can be sent: 65536 prefilled transactions and one short id. */
  lemma EndlessMessage(tx: Tx, id: nat)
    requires !tx.isNull
    ensures var m := Message(false, [id], seq(TWO16, _ => Prefilled(0, tx)));
            AllAcceptable(m, |m.prefilled|) && Total(m) == TWO16 + 1 && |m.prefilled| >= TWO16
  {
    var m := Message(false, [id], seq(TWO16, _ => Prefilled(0, tx)));
    forall i: nat | i < |m.prefilled|
      ensures Acceptable(m, i)
    {
      SlotOfZeros(m.prefilled, i);
    }
  }

  lemma {:induction false} SlotOfZeros(p: seq<Prefilled>, i: nat)
    requires i < |p| && forall k | 0 <= k < |p| :: p[k].index == 0
    ensures SlotOf(p, i) == i
  {
    if i > 0 {
      SlotOfZeros(p, i - 1);
    }
  }

  // --- Reconstruction -----------------------------------------------------------------------

  /** Endless stands for a scan that does not end. */
  datatype Status = Ok | Invalid | Failed | CheckBlockFailed | Endless

  /** A slot is empty or holds the block's transaction. */
  ghost predicate Consistent(a: Slots, block: seq<Tx>) {
    |a| == |block| && forall s | 0 <= s < |a| :: a[s] == None || a[s] == Some(block[s])
  }

  /** The block with the missing transactions in its empty slots, in order. */
  function Completed(a: Slots, missing: seq<Tx>): (r: seq<Tx>)
    requires |missing| == |Gaps(a)|
    ensures |r| == |a|
  {
    if a == [] then []
    else
      var n := |a| - 1;
      if a[n].None? then Completed(a[..n], missing[..|missing| - 1]) + [missing[|missing| - 1]]
      else Completed(a[..n], missing) + [a[n].value]
  }

  /** The transactions of a block at the given slots. */
  function Picked(block: seq<Tx>, slots: seq<nat>): (r: seq<Tx>)
    requires forall k | 0 <= k < |slots| :: slots[k] < |block|
    ensures |r| == |slots|
  {
    seq(|slots|, k requires 0 <= k < |slots| => block[slots[k]])
  }

  /** Missing transactions in order complete the block. */
  lemma {:induction false} CompletedIs(a: Slots, block: seq<Tx>)
    requires Consistent(a, block)
    ensures Completed(a, Picked(block, Gaps(a))) == block
  {
    if a != [] {
      var n := |a| - 1;
      CompletedIs(a[..n], block[..n]);
      var missing := Picked(block, Gaps(a));
      var front := Picked(block[..n], Gaps(a[..n]));
      if a[n].None? {
        assert missing[..|missing| - 1] == front;
      } else {
        assert missing == front;
      }
      assert block == block[..n] + [block[n]];
    }
  }

  class PartiallyDownloadedBlock {
    var available: Slots
    var headerIsNull: bool
    var mempoolCount: nat
    var extraCount: nat

    constructor ()
      ensures available == [] && headerIsNull && mempoolCount == 0 && extraCount == 0
    {
      available, headerIsNull, mempoolCount, extraCount := [], true, 0, 0;
    }

    /** Puts the prefilled transactions into their slots. */
    method Prefill(m: Message) returns (ok: bool)
      modifies this
      ensures ok <==> AllAcceptable(m, |m.prefilled|)
      ensures ok ==> available == Placed(m, |m.prefilled|)
      ensures headerIsNull == old(headerIsNull) && mempoolCount == old(mempoolCount) && extraCount == old(extraCount)
    {
      available := Empty(Total(m));
      var last := -1;
      var i := 0;
      while i < |m.prefilled|
        invariant 0 <= i <= |m.prefilled| && AllAcceptable(m, i) && available == Placed(m, i)
        invariant last == if i == 0 then -1 else SlotOf(m.prefilled, i - 1)
        invariant headerIsNull == old(headerIsNull) && mempoolCount == old(mempoolCount)
        invariant extraCount == old(extraCount)
      {
        if m.prefilled[i].tx.isNull {
          assert !Acceptable(m, i);
          return false;
        }
        last := last + m.prefilled[i].index + 1;
        if last >= TWO16 {
          assert !Acceptable(m, i);
          return false;
        }
        if last > |m.shortIds| + i {
          assert !Acceptable(m, i);
          return false;
        }
        assert Acceptable(m, i);
        available := available[last := Some(m.prefilled[i].tx)];
        i := i + 1;
      }
      return true;
    }

    /** Gives each short id the next empty slot, in 16 bits; the scan stays inside the array. */
    method MapShortIds(short: seq<nat>) returns (ids: map<nat, nat>, ends: bool)
      requires |Gaps(available)| == |short| && LowFilled(available)
      ensures ends <==> short == [] || Gaps(available)[0] < TWO16
      ensures ends ==> MapsTo(ids, short, Wrapped(Gaps(available)), |short|)
    {
      hide Gaps, MapsTo, LowFilled, Wrap16, Wrapped;
      ids, ends := map[], true;
      var offset: nat := 0;
      var i := 0;
      MapNone(short, Wrapped(Gaps(available)));
      while i < |short|
        invariant 0 <= i <= |short| && offset < TWO16 && i + offset <= |available| && ends
        invariant |Gaps(available[..i + offset])| == i && MapsTo(ids, short, Wrapped(Gaps(available)), i)
        invariant i > 0 ==> Gaps(available)[0] < TWO16
      {
        offset, ends := NextGap(i, offset);
        if !ends {
          return;
        }
        var slot := Wrap16(i + offset);
        ThisGap(available, i + offset);
        MapNext(ids, short, Wrapped(Gaps(available)), i);
        ids := ids[short[i] := slot];
        GapsNext(available, i + offset);
        i := i + 1;
      }
    }

    /** After `n` more turns the scan is at an empty slot. */
    ghost predicate EndsAt(i: nat, start: nat, n: nat)
      reads this
    {
      i + Wrap16(start + n) < |available| && available[i + Wrap16(start + n)].None?
    }

    /** Skips the filled slots with an offset of 16 bits. Once that is back at zero every slot it can reach
        is filled, so there is no number of turns after which the scan ends. */
    method NextGap(i: nat, start: nat) returns (offset: nat, ends: bool)
      requires start < TWO16 && i + start <= |available| && |Gaps(available[..i + start])| == i < |Gaps(available)|
      requires LowFilled(available)
      ensures ends <==> exists n: nat :: EndsAt(i, start, n)
      ensures ends ==> start <= offset < TWO16 && i + offset < |available| && available[i + offset].None?
      ensures ends ==> |Gaps(available[..i + offset])| == i
      ensures !ends ==> i == 0 && Gaps(available)[0] >= TWO16
    {
      hide Gaps, Wrap16;
      offset := start;
      MoreGaps(available, i + offset);
      while available[i + offset].Some?
        invariant start <= offset < TWO16 && i + offset < |available| && |Gaps(available[..i + offset])| == i
        decreases TWO16 - offset
      {
        GapsNext(available, i + offset);
        MoreGaps(available, i + offset + 1);
        if offset == TWO16 - 1 {
          NeverEnds(start);
          return offset, false;
        }
        offset := offset + 1;
      }
      assert EndsAt(i, start, offset - start);
      return offset, true;
    }

    lemma NeverEnds(start: nat)
      requires TWO16 < |available| && |Gaps(available[..TWO16])| == 0 < |Gaps(available)|
      ensures forall n: nat :: !EndsAt(0, start, n)
      ensures Gaps(available)[0] >= TWO16
    {
      forall n: nat
        ensures !EndsAt(0, start, n)
      {
        WrapAtMost(start + n);
        if available[Wrap16(start + n)].None? {
          GapListed(available[..TWO16], Wrap16(start + n));
        }
      }
      if Gaps(available)[0] < TWO16 {
        GapListed(available[..TWO16], Gaps(available)[0]);
      }
    }

    /** Looks for the block's transactions in the mempool. */
    method TakeFromPool(short: ShortIds, ids: map<nat, nat>, pool: seq<Tx>, ghost placed: Slots)
      returns (have: seq<bool>, ghost n: nat)
      requires InRange(ids, |placed|) && available == placed && mempoolCount == 0
      modifies this
      ensures n <= |pool| && Scanned(short, ids, placed, available, have, pool[..n], [])
      ensures |available| == |have| && mempoolCount == |FoundSlots(available, have)|
      ensures n == |pool| || AllFilled(short, ids, available, pool[..n], [])
      ensures headerIsNull == old(headerIsNull) && extraCount == old(extraCount)
    {
      hide FoundSlots, Scanned, AllFilled;
      have, n := seq(|available|, _ => false), 0;
      NothingScanned(short, ids, placed, have);
      var i := 0;
      while i < |pool|
        invariant 0 <= i <= |pool| && |have| == |available| == |placed| && mempoolCount == |FoundSlots(available, have)|
        invariant n == i && Scanned(short, ids, placed, available, have, pool[..n], [])
        invariant headerIsNull == old(headerIsNull) && extraCount == old(extraCount)
      {
        var shortId := short(pool[i].hash);
        PoolScanned(short, ids, placed, available, have, pool[..n], pool[i]);
        assert pool[..n + 1] == pool[..n] + [pool[i]];
        if shortId in ids {
          var slot := ids[shortId];
          if !have[slot] {
            FoundOne(available, have, slot, pool[i]);
            available := available[slot := Some(pool[i])];
            have := have[slot := true];
            mempoolCount := mempoolCount + 1;
          } else if available[slot].Some? {
            LostOne(available, have, slot);
            available := available[slot := None];
            mempoolCount := mempoolCount - 1;
            Unchanged(have, slot);
          } else {
            Unchanged(have, slot);
            Unchanged(available, slot);
          }
        }
        n := n + 1;
        if mempoolCount == |ids| {
          AllFound(short, ids, placed, available, have, pool[..n], []);
          break;
        }
        i := i + 1;
      }
    }

    /** Looks for them among extra transactions too. */
    method TakeFromExtra(short: ShortIds, ids: map<nat, nat>, extra: seq<Tx>, had: seq<bool>,
                         ghost placed: Slots, ghost pool: seq<Tx>)
      returns (ghost have: seq<bool>, ghost n: nat)
      requires InRange(ids, |placed|) && |had| == |available| == |placed|
      requires mempoolCount == |FoundSlots(available, had)| && Scanned(short, ids, placed, available, had, pool, [])
      modifies this
      ensures n <= |extra| && Scanned(short, ids, placed, available, have, pool, extra[..n])
      ensures n == |extra| || AllFilled(short, ids, available, pool, extra[..n])
      ensures headerIsNull == old(headerIsNull)
    {
      hide FoundSlots, Scanned, AllFilled, Wrap64;
      var haveTxn := had;
      var i := 0;
      n := 0;
      while i < |extra|
        invariant 0 <= i <= |extra| && |haveTxn| == |available| == |placed|
        invariant mempoolCount == |FoundSlots(available, haveTxn)| && headerIsNull == old(headerIsNull)
        invariant n == i && Scanned(short, ids, placed, available, haveTxn, pool, extra[..n])
      {
        var shortId := short(extra[i].hash);
        ExtraScanned(short, ids, placed, available, haveTxn, pool, extra[..n], extra[i]);
        assert extra[..n + 1] == extra[..n] + [extra[i]];
        if shortId in ids {
          var slot := ids[shortId];
          if !haveTxn[slot] {
            FoundOne(available, haveTxn, slot, extra[i]);
            available := available[slot := Some(extra[i])];
            haveTxn := haveTxn[slot := true];
            mempoolCount := mempoolCount + 1;
            extraCount := Wrap64(extraCount + 1);
          } else if available[slot].Some? && available[slot].value.witnessHash != extra[i].witnessHash {
            LostOne(available, haveTxn, slot);
            available := available[slot := None];
            mempoolCount := mempoolCount - 1;
            extraCount := Wrap64(extraCount - 1);
            Unchanged(haveTxn, slot);
          } else {
            Unchanged(haveTxn, slot);
            Unchanged(available, slot);
          }
        }
        n := n + 1;
        if mempoolCount == |ids| {
          AllFound(short, ids, placed, available, haveTxn, pool, extra[..n]);
          break;
        }
        i := i + 1;
      }
      have := haveTxn;
    }

    /** Reads a compact block. A slot ends as it was prefilled or with what the search decides on for the
        short ids that stand for it. If the message has at most 65536 transactions that is the block's
        own transaction, unless one is mistaken for another. */
    method InitData(short: ShortIds, m: Message, pool: seq<Tx>, extra: seq<Tx>, maxCount: nat, crowded: bool)
      returns (status: Status, ghost ids: map<nat, nat>)
      requires headerIsNull && available == [] && mempoolCount == 0
      modifies this
      ensures status == Invalid <==>
              m.headerIsNull || Total(m) == 0 || Total(m) > maxCount || !AllAcceptable(m, |m.prefilled|)
      ensures status == Endless <==> status != Invalid && m.shortIds != [] && |m.prefilled| >= TWO16
      ensures status == Failed <==> status != Invalid && status != Endless && (crowded || !Unique(m.shortIds))
      ensures status != CheckBlockFailed
      ensures status == Ok ==> !headerIsNull && Unique(m.shortIds) && Read(short, m, ids, available, pool, extra)
      ensures status == Ok && Total(m) <= TWO16 ==>
                forall block: seq<Tx> | Describes(short, m, block) && NoClash(short, block, pool + extra) ::
                  Consistent(available, block)
    {
      hide Scanned, AllFilled, Recovered, AllAcceptable, Placed, Gaps, MapsTo, Unique, Describes, NoClash, Consistent;
      ids := map[];
      if m.headerIsNull || (|m.shortIds| == 0 && |m.prefilled| == 0) {
        return Invalid, ids;
      }
      if |m.shortIds| + |m.prefilled| > maxCount {
        return Invalid, ids;
      }
      headerIsNull := m.headerIsNull;
      var ok := Prefill(m);
      if !ok {
        return Invalid, ids;
      }
      ghost var placed := available;
      PlacedIs(m, |m.prefilled|);
      PlacedLow(m);
      if m.shortIds != [] {
        EndlessIff(m);
      }
      var shorttxids, ends := MapShortIds(m.shortIds);
      if !ends {
        return Endless, ids;
      }
      UniqueIds(shorttxids, m.shortIds, Wrapped(Gaps(placed)));
      if crowded {
        return Failed, ids;
      }
      if |shorttxids| != |m.shortIds| {
        return Failed, ids;
      }
      ids := shorttxids;
      WrappedInRange(ids, m.shortIds, placed);
      ghost var nPool, nExtra, haveAll;
      var have;
      have, nPool := TakeFromPool(short, shorttxids, pool, placed);
      ghost var after := available;
      ScannedLength(short, ids, placed, available, have, pool[..nPool], []);
      haveAll, nExtra := TakeFromExtra(short, shorttxids, extra, have, placed, pool[..nPool]);
      RecoveredAll(short, ids, placed, after, have, pool, nPool, available, haveAll, extra, nExtra);
      forall block: seq<Tx> | Describes(short, m, block) && NoClash(short, block, pool + extra) && Total(m) <= TWO16
        ensures Consistent(available, block)
      {
        ReadConsistent(short, m, block, ids, available, pool, extra);
      }
      return Ok, ids;
    }

    /** Completes the block. The status is about the number of transactions first, then about the
        block's own check, whose outcome is given. */
    method FillBlock(missing: seq<Tx>, checkOk: bool, corruptionPossible: bool) returns (status: Status, vtx: seq<Tx>)
      requires !headerIsNull
      modifies this
      ensures status == Invalid <==> |missing| != |Gaps(old(available))|
      ensures status != Invalid ==> vtx == Completed(old(available), missing) && headerIsNull && available == []
      ensures status != Invalid ==>
              status == if checkOk then Ok else if corruptionPossible then Failed else CheckBlockFailed
    {
      hide Completed;
      ghost var a := available;
      vtx := [];
      var offset := 0;
      var i := 0;
      NoneCompleted(a);
      while i < |available|
        invariant 0 <= i <= |available| == |a| && available[i..] == a[i..] && !headerIsNull
        invariant offset == |Gaps(a[..i])| <= |missing| && vtx == Completed(a[..i], missing[..offset])
      {
        assert available[i] == available[i..][0] == a[i];
        assert available[i + 1..] == available[i..][1..] == a[i + 1..];
        GapsPrefix(a, i + 1);
        GapsNext(a, i);
        CompletedNext(a, i, missing, offset);
        if available[i].None? {
          if |missing| <= offset {
            status := Invalid;
            return;
          }
          vtx := vtx + [missing[offset]];
          offset := offset + 1;
        } else {
          vtx := vtx + [available[i].value];
          available := available[i := None];
        }
        i := i + 1;
      }
      assert a[..i] == a && missing[..|missing|] == missing;
      headerIsNull := true;
      available := [];
      if |missing| != offset {
        status := Invalid;
        return;
      }
      status := if checkOk then Ok else if corruptionPossible then Failed else CheckBlockFailed;
    }
  }

  function Wrap64(n: int): nat { n % TWO64 }

  lemma NoneCompleted(a: Slots)
    ensures Gaps(a[..0]) == [] && Completed(a[..0], []) == []
  {
    assert a[..0] == [];
  }

  lemma CompletedNext(a: Slots, i: nat, missing: seq<Tx>, offset: nat)
    requires i < |a| && offset == |Gaps(a[..i])| <= |missing|
    ensures a[i].None? && offset < |missing| ==>
              && |Gaps(a[..i + 1])| == offset + 1
              && Completed(a[..i + 1], missing[..offset + 1]) ==
                  Completed(a[..i], missing[..offset]) + [missing[offset]]
    ensures a[i].Some? ==>
              && |Gaps(a[..i + 1])| == offset
              && Completed(a[..i + 1], missing[..offset]) == Completed(a[..i], missing[..offset]) + [a[i].value]
  {
    var b := a[..i + 1];
    assert b[..i] == a[..i];
    if a[i].None? && offset < |missing| {
      assert missing[..offset + 1][..offset] == missing[..offset];
    }
  }

  // --- A message that was read --------------------------------------------------------------

  /** The short ids have the stored slots, and the slots what was found for them. */
  ghost predicate Read(short: ShortIds, m: Message, ids: map<nat, nat>, a: Slots, pool: seq<Tx>, extra: seq<Tx>) {
    && AllAcceptable(m, |m.prefilled|) && |ids| == |m.shortIds| == |Gaps(Placed(m, |m.prefilled|))|
    && MapsTo(ids, m.shortIds, Wrapped(Gaps(Placed(m, |m.prefilled|))), |m.shortIds|)
    && Recovered(short, ids, Placed(m, |m.prefilled|), a, pool, extra)
  }

  lemma GapsIncrease(a: Slots)
    ensures Increasing(Gaps(a)) && forall k | 0 <= k < |Gaps(a)| :: Gaps(a)[k] < |a|
  {
  }

  lemma ReadLength(short: ShortIds, m: Message, ids: map<nat, nat>, a: Slots, pool: seq<Tx>, extra: seq<Tx>)
    requires Read(short, m, ids, a, pool, extra)
    ensures |a| == Total(m)
  {
  }

  /** With at most 65536 transactions a transaction lands in an empty slot exactly if that is the slot of
      its short id. */
  lemma LandsIff(short: ShortIds, m: Message, ids: map<nat, nat>, t: Tx, s: nat)
    requires AllAcceptable(m, |m.prefilled|) && |ids| == |m.shortIds| == |Gaps(Placed(m, |m.prefilled|))|
    requires MapsTo(ids, m.shortIds, Wrapped(Gaps(Placed(m, |m.prefilled|))), |m.shortIds|) && Total(m) <= TWO16
    ensures Lands(short, ids, t, s) <==>
            exists k | 0 <= k < |m.shortIds| ::
              m.shortIds[k] == short(t.hash) && Gaps(Placed(m, |m.prefilled|))[k] == s
  {
    hide Gaps, Placed, AllAcceptable, Wrap16, Wrapped;
    var gaps, id := Gaps(Placed(m, |m.prefilled|)), short(t.hash);
    NotWrapped(Placed(m, |m.prefilled|));
    if k :| 0 <= k < |m.shortIds| && m.shortIds[k] == id && gaps[k] == s {
      MappedAt(ids, m.shortIds, gaps, k);
    }
  }

  /** When no transaction is mistaken for another, every hit of a slot is the block's transaction. */
  lemma HitIsRight(short: ShortIds, m: Message, block: seq<Tx>, ids: map<nat, nat>, s: nat, txs: seq<Tx>)
    requires Describes(short, m, block) && NoClash(short, block, txs) && Total(m) <= TWO16
    requires |ids| == |m.shortIds| && MapsTo(ids, m.shortIds, Wrapped(Gaps(Placed(m, |m.prefilled|))), |m.shortIds|)
    ensures forall t <- Hits(short, ids, txs, s) :: s < |block| && t == block[s]
    ensures s < Total(m) && Placed(m, |m.prefilled|)[s].Some? ==> Hits(short, ids, txs, s) == []
  {
    hide Placed, Gaps, AllAcceptable, Hits, MapsTo, Wrapped, NoClash;
    forall t | t in Hits(short, ids, txs, s)
      ensures s < |block| && s < Total(m) && Placed(m, |m.prefilled|)[s].None? && t == block[s]
    {
      RightHit(short, m, block, ids, s, txs, t);
    }
    if Hits(short, ids, txs, s) != [] {
      assert Hits(short, ids, txs, s)[0] in Hits(short, ids, txs, s);
    }
  }

  lemma RightHit(short: ShortIds, m: Message, block: seq<Tx>, ids: map<nat, nat>, s: nat, txs: seq<Tx>, t: Tx)
    requires Describes(short, m, block) && NoClash(short, block, txs) && Total(m) <= TWO16
    requires |ids| == |m.shortIds| && MapsTo(ids, m.shortIds, Wrapped(Gaps(Placed(m, |m.prefilled|))), |m.shortIds|)
    requires t in Hits(short, ids, txs, s)
    ensures s < |block| == Total(m) && Placed(m, |m.prefilled|)[s].None? && t == block[s]
  {
    hide Gaps, Placed, AllAcceptable, Hits, MapsTo, Wrapped;
    var gaps := Gaps(Placed(m, |m.prefilled|));
    LandsIff(short, m, ids, t, s);
    var l :| 0 <= l < |m.shortIds| && m.shortIds[l] == short(t.hash) && gaps[l] == s;
    assert m.shortIds[l] == short(block[gaps[l]].hash);
    var i :| 0 <= i < |txs| && txs[i] == t;
  }

  /** When no transaction is mistaken for another, the slots agree with the block. */
  lemma ReadConsistent(short: ShortIds, m: Message, block: seq<Tx>, ids: map<nat, nat>, a: Slots,
                       pool: seq<Tx>, extra: seq<Tx>)
    requires Describes(short, m, block) && NoClash(short, block, pool + extra)
    requires Read(short, m, ids, a, pool, extra) && Total(m) <= TWO16
    ensures Consistent(a, block)
  {
    hide Placed, Gaps, AllAcceptable, MapsTo, NoClash, Hits, Wrapped;
    var placed := Placed(m, |m.prefilled|);
    PlacedIs(m, |m.prefilled|);
    forall s: nat | s < |a|
      ensures a[s] == None || a[s] == Some(block[s])
    {
      NoClashEither(short, block, pool, extra);
      HitIsRight(short, m, block, ids, s, pool);
      HitIsRight(short, m, block, ids, s, extra);
      assert Recovers(placed[s], a[s], Hits(short, ids, pool, s), Hits(short, ids, extra, s));
      if a[s].Some? && Hits(short, ids, pool, s) + Hits(short, ids, extra, s) == [] {
        var i: nat :| i < |m.prefilled| && SlotOf(m.prefilled, i) == s;
        assert Acceptable(m, i) && block[SlotOf(m.prefilled, i)] == m.prefilled[i].tx;
      }
    }
  }

  /** A slot whose transaction is in one of the lists does not stay empty. */
  lemma KnownIsFound(short: ShortIds, m: Message, block: seq<Tx>, ids: map<nat, nat>, a: Slots, s: nat,
                     pool: seq<Tx>, extra: seq<Tx>)
    requires Describes(short, m, block) && NoClash(short, block, pool + extra)
    requires Read(short, m, ids, a, pool, extra) && Total(m) <= TWO16 && NoRepeats(pool)
    requires s < |a| && Placed(m, |m.prefilled|)[s].None? && (block[s] in pool || block[s] in extra)
    ensures a[s].Some?
  {
    hide Placed, Gaps, AllAcceptable, MapsTo, NoClash, NoRepeats, Hits, Wrapped;
    var placed := Placed(m, |m.prefilled|);
    var p, e := Hits(short, ids, pool, s), Hits(short, ids, extra, s);
    NoClashEither(short, block, pool, extra);
    HitIsRight(short, m, block, ids, s, pool);
    HitIsRight(short, m, block, ids, s, extra);
    HitsOnce(short, ids, pool, s, block[s]);
    GapListed(placed, s);
    var k :| 0 <= k < |m.shortIds| && Gaps(placed)[k] == s;
    LandsIff(short, m, ids, block[s], s);
    if block[s] in pool {
      EveryHit(short, ids, pool, block[s], s);
    } else {
      EveryHit(short, ids, extra, block[s], s);
    }
    assert Recovers(placed[s], a[s], p, e) && block[s] in p + e;
    assert forall t <- p + e :: t == block[s];
    assert forall j | 0 <= j < |p + e| :: (p + e)[j] in p + e;
  }

  /** Only transactions that are in neither list are still missing. */
  lemma OnlyUnknownMissing(short: ShortIds, m: Message, block: seq<Tx>, ids: map<nat, nat>, a: Slots,
                           pool: seq<Tx>, extra: seq<Tx>)
    requires Describes(short, m, block) && NoClash(short, block, pool + extra)
    requires Read(short, m, ids, a, pool, extra) && Total(m) <= TWO16 && NoRepeats(pool) && Consistent(a, block)
    ensures forall x <- Picked(block, Gaps(a)) :: x !in pool && x !in extra
  {
    hide Placed, AllAcceptable, Hits, NoClash, NoRepeats, MapsTo, Describes, Wrapped;
    var missing := Picked(block, Gaps(a));
    forall k | 0 <= k < |missing|
      ensures missing[k] !in pool && missing[k] !in extra
    {
      var s := Gaps(a)[k];
      PrefilledStays(short, m, block, ids, a, pool, extra, s);
      if block[s] in pool || block[s] in extra {
        KnownIsFound(short, m, block, ids, a, s, pool, extra);
      }
    }
  }

  lemma PrefilledStays(short: ShortIds, m: Message, block: seq<Tx>, ids: map<nat, nat>, a: Slots,
                       pool: seq<Tx>, extra: seq<Tx>, s: nat)
    requires Describes(short, m, block) && NoClash(short, block, pool + extra)
    requires Read(short, m, ids, a, pool, extra) && Total(m) <= TWO16 && s < |a|
    ensures Placed(m, |m.prefilled|)[s].Some? ==> a[s] == Placed(m, |m.prefilled|)[s]
  {
    hide Placed, Gaps, AllAcceptable, MapsTo, NoClash, Hits, Wrapped;
    NoClashEither(short, block, pool, extra);
    HitIsRight(short, m, block, ids, s, pool);
    HitIsRight(short, m, block, ids, s, extra);
    assert Recovers(Placed(m, |m.prefilled|)[s], a[s], Hits(short, ids, pool, s), Hits(short, ids, extra, s));
  }

  /** Why 65536 is the limit: in any larger message the last slot is empty and its transaction, found in the
      mempool, ends in another slot. */
  lemma LastMisplaced(short: ShortIds, m: Message, block: seq<Tx>, ids: map<nat, nat>, a: Slots)
    requires Describes(short, m, block) && Total(m) > TWO16
    requires Read(short, m, ids, a, [block[Total(m) - 1]], [])
    ensures var last := Total(m) - 1;
            && Wrap16(last) != last && a[Wrap16(last)] == Some(block[last]) && a[last].None?
            && (block[Wrap16(last)] != block[last] ==> !Consistent(a, block))
  {
    hide Placed, Gaps, AllAcceptable, Wrap16, MapsTo, Hits, Read, Recovers, Lands, Verdict;
    var placed, last := Placed(m, |m.prefilled|), Total(m) - 1;
    ReadAt(short, m, ids, a, [block[last]], [], last);
    LastLands(short, m, block, ids);
    var t, s := block[last], Wrap16(last);
    ReadAt(short, m, ids, a, [t], [], s);
    SingleHit(short, ids, t, s);
    SingleHit(short, ids, t, last);
    NoHits(short, ids, s);
    NoHits(short, ids, last);
    RecoversOne(placed[s], a[s], t);
    RecoversNone(placed[last], a[last]);
  }

  lemma ReadAt(short: ShortIds, m: Message, ids: map<nat, nat>, a: Slots, pool: seq<Tx>, extra: seq<Tx>, s: nat)
    requires Read(short, m, ids, a, pool, extra) && s < Total(m)
    ensures AllAcceptable(m, |m.prefilled|) && |ids| == |m.shortIds| == |Gaps(Placed(m, |m.prefilled|))|
    ensures MapsTo(ids, m.shortIds, Wrapped(Gaps(Placed(m, |m.prefilled|))), |m.shortIds|)
    ensures s < |a| == Total(m)
    ensures Recovers(Placed(m, |m.prefilled|)[s], a[s], Hits(short, ids, pool, s), Hits(short, ids, extra, s))
  {
    hide Placed, Gaps, AllAcceptable, MapsTo, Hits, Recovers, Wrapped;
  }

  lemma LastLands(short: ShortIds, m: Message, block: seq<Tx>, ids: map<nat, nat>)
    requires Describes(short, m, block) && Total(m) > TWO16
    requires |ids| == |m.shortIds| && MapsTo(ids, m.shortIds, Wrapped(Gaps(Placed(m, |m.prefilled|))), |m.shortIds|)
    ensures var last := Total(m) - 1;
            && |block| == Total(m) && Wrap16(last) < TWO16 && Placed(m, |m.prefilled|)[last].None?
            && Lands(short, ids, block[last], Wrap16(last)) && !Lands(short, ids, block[last], last)
  {
    hide Placed, Gaps, AllAcceptable, Wrap16, MapsTo;
    var placed, last := Placed(m, |m.prefilled|), Total(m) - 1;
    var gaps := Gaps(placed);
    PlacedLow(m);
    GapListed(placed, last);
    var k :| 0 <= k < |gaps| && gaps[k] == last;
    WrapAtMost(last);
    assert m.shortIds[k] == short(block[gaps[k]].hash);
    MappedAt(ids, m.shortIds, Wrapped(gaps), k);
  }

  // --- Relay --------------------------------------------------------------------------------

  /** A block sent in compact form to a node that asks for what it lacks. With at most 65536 transactions it
      comes out as it was, if no transaction is mistaken for another; what is asked for travels as an
      index list. */
  method Relay(short: ShortIds, block: seq<Tx>, pool: seq<Tx>, extra: seq<Tx>, maxCount: nat, crowded: bool)
    returns (status: Status, missing: seq<Tx>, vtx: seq<Tx>)
    requires 0 < |block| && !block[0].isNull
    ensures status == Invalid <==> |block| > maxCount
    ensures status == Invalid || status == Ok || status == Failed
    ensures |block| <= TWO16 && |block| <= maxCount ==>
              (status == Failed <==> crowded || !Unique(ShortIdsOf(short, block)))
    ensures status == Ok && |block| <= TWO16 && NoClash(short, block, pool + extra) ==>
              vtx == block && (NoRepeats(pool) ==> forall x <- missing :: x !in pool && x !in extra)
  {
    hide Recovered, NoRepeats, Gaps, Completed, AllAcceptable, Unique, NoClash, Read, Describes, Consistent;
    var m := Compress(short, block);
    var receiver := new PartiallyDownloadedBlock();
    ghost var ids;
    status, ids := receiver.InitData(short, m, pool, extra, maxCount, crowded);
    missing, vtx := [], [];
    if status != Ok {
      return;
    }
    ghost var a := receiver.available;
    ReadLength(short, m, ids, a, pool, extra);
    if |block| <= TWO16 {
      NotWrapped(a);
      GapsIncrease(a);
    }
    var indexes := Wrapped(Gaps(receiver.available));
    var asked := SendIndexes(indexes);
    if asked.None? || exists k | 0 <= k < |asked.value| :: asked.value[k] >= |block| {
      status := Failed;
      return;
    }
    missing := Picked(block, asked.value);
    if |block| <= TWO16 && NoClash(short, block, pool + extra) {
      if NoRepeats(pool) {
        OnlyUnknownMissing(short, m, block, ids, a, pool, extra);
      }
      CompletedIs(a, block);
    }
    status, vtx := receiver.FillBlock(missing, true, false);
  }
}
