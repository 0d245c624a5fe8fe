/** Block assembly by ancestor packages (`BlockAssembler` in miner.cpp and miner.h). */
module Miner {
  import opened Mempool

  const MAX_BLOCK_SIGOPS_COST := 80_000
  const MAX_CONSECUTIVE_FAILURES := 1000
  const COINBASE_WEIGHT := 4000
  const COINBASE_SIGOPS := 400

  /** Package totals of an entry some of whose ancestors are in the block. */
  datatype Modified = Modified(size: int, modFees: int, sigOps: int)

  type ModifiedSet = map<nat, Modified>

  // --- What is recorded for an entry --------------------------------------------------------

  /** What the fee deltas of some entries add up to. */
  function Priority(pool: Pool, ids: set<nat>): int {
    Total(pool, ids, ModifiedFee) - Total(pool, ids, Fee)
  }

  /** The ancestors of an entry that were taken into account. */
  function Included(pool: Pool, counted: set<nat>, i: nat): set<nat> {
    set a | a in Ancestors(pool, i) && a in counted
  }

  /** The recorded fee of an entry is off by the fee deltas of its included ancestors without `first`, the
      one for which the record was made. */
  ghost predicate FeeFrom(pool: Pool, counted: set<nat>, i: nat, m: Modified, first: nat) {
    && first in Included(pool, counted, i)
    && m.modFees - Rest(pool, counted, i, ModifiedFee) == Priority(pool, Included(pool, counted, i) - {first})
  }

  ghost predicate FeeDrift(pool: Pool, counted: set<nat>, i: nat, m: Modified) {
    exists first: nat :: FeeFrom(pool, counted, i, m, first)
  }

  /** What an entry that was never dropped is judged by: exact size and sigops, and the exact fee if none
      of its ancestors is in the block. */
  ghost predicate Judged(pool: Pool, block: set<nat>, i: nat, m: Modified) {
    && Exact(pool, block, i, m)
    && if Ancestors(pool, i) !! block then m.modFees == Rest(pool, block, i, ModifiedFee)
       else FeeDrift(pool, block, i, m)
  }

  /** Without fee deltas among the ancestors in the block the fee is exact. */
  lemma NoDrift(pool: Pool, block: set<nat>, i: nat, m: Modified)
    requires Judged(pool, block, i, m)
    requires forall a <- Included(pool, block, i) :: Of(pool, Fee)(a) == Of(pool, ModifiedFee)(a)
    ensures m.modFees == Rest(pool, block, i, ModifiedFee)
  {
    if !(Ancestors(pool, i) !! block) {
      var first: nat :| FeeFrom(pool, block, i, m, first);
      SumSame(Included(pool, block, i) - {first}, |pool|, Of(pool, ModifiedFee), Of(pool, Fee));
    }
  }

  predicate Exact(pool: Pool, counted: set<nat>, i: nat, m: Modified) {
    m.size == Rest(pool, counted, i, Size) && m.sigOps == Rest(pool, counted, i, SigOps)
  }

  predicate Enough(pool: Pool, counted: set<nat>, i: nat, m: Modified) {
    m.size >= Rest(pool, counted, i, Size) && m.sigOps >= Rest(pool, counted, i, SigOps)
  }

  /** What is recorded for entry `i` when the entries in `counted` were taken into account: size and sigops
      exact and the fee off by a known sum, unless the entry was dropped once, and never too little. An entry
      without a record has nothing to take into account, unless it was dropped. */
  ghost predicate EntryOk(pool: Pool, counted: set<nat>, mods: ModifiedSet, failed: set<nat>, i: nat) {
    if i in mods then
      && Enough(pool, counted, i, mods[i])
      && (i !in failed ==> Exact(pool, counted, i, mods[i]) && FeeDrift(pool, counted, i, mods[i]))
    else
      i !in failed ==> Ancestors(pool, i) !! counted
  }

  predicate KeysOk(pool: Pool, block: set<nat>, mods: ModifiedSet) {
    forall i <- mods :: i < |pool| && i !in block
  }

  ghost predicate Tracked(pool: Pool, block: set<nat>, counted: set<nat>, mods: ModifiedSet, failed: set<nat>) {
    && KeysOk(pool, block, mods)
    && (forall i: nat | i < |pool| && i !in block :: EntryOk(pool, counted, mods, failed, i))
  }

  /** The totals a package is judged by. */
  function Unmodified(pool: Pool, i: nat): Modified {
    Modified(Total(pool, WithAncestors(pool, i), Size), Total(pool, WithAncestors(pool, i), ModifiedFee),
             Total(pool, WithAncestors(pool, i), SigOps))
  }

  /** The record of `d` after its ancestor `it` went into the block: a new record gives up the
      modified fee of `it`, an old one its plain fee. */
  function Discounted(pool: Pool, mods: ModifiedSet, it: nat, d: nat): Modified {
    if d in mods then
      var m := mods[d];
      Modified(m.size - Of(pool, Size)(it), m.modFees - Of(pool, Fee)(it), m.sigOps - Of(pool, SigOps)(it))
    else
      var m := Unmodified(pool, d);
      Modified(m.size - Of(pool, Size)(it), m.modFees - Of(pool, ModifiedFee)(it), m.sigOps - Of(pool, SigOps)(it))
  }

  lemma DiscountKeeps(pool: Pool, counted: set<nat>, mods: ModifiedSet, failed: set<nat>, it: nat, d: nat)
    requires PoolOk(pool) && it in Ancestors(pool, d) && it !in counted && d !in counted
    requires EntryOk(pool, counted, mods, failed, d)
    ensures EntryOk(pool, counted + {it}, mods[d := Discounted(pool, mods, it, d)], failed, d)
  {
    assert Ancestors(pool, it) <= Ancestors(pool, d);
    RestStep(pool, counted, it, d, Size);
    RestStep(pool, counted, it, d, SigOps);
    if d !in mods {
      RestAtMostAll(pool, counted, d, Size);
      RestAtMostAll(pool, counted, d, SigOps);
      if d !in failed {
        RestOfNone(pool, counted, d, Size);
        RestOfNone(pool, counted, d, SigOps);
        FirstDrift(pool, counted, it, d, Discounted(pool, mods, it, d));
      }
    } else if d !in failed {
      var first: nat :| FeeFrom(pool, counted, d, mods[d], first);
      NextDrift(pool, counted, it, d, mods[d], Discounted(pool, mods, it, d), first);
    }
  }

  /** A new record gives up the modified fee of the ancestor it is made for. */
  lemma FirstDrift(pool: Pool, counted: set<nat>, it: nat, d: nat, m: Modified)
    requires PoolOk(pool) && it in Ancestors(pool, d) && it !in counted && d !in counted
    requires Ancestors(pool, d) !! counted
    requires m.modFees == Unmodified(pool, d).modFees - Of(pool, ModifiedFee)(it)
    ensures FeeDrift(pool, counted + {it}, d, m)
  {
    assert Ancestors(pool, it) <= Ancestors(pool, d);
    RestOfNone(pool, counted, d, ModifiedFee);
    RestStep(pool, counted, it, d, ModifiedFee);
    assert Included(pool, counted + {it}, d) - {it} == {};
    SumNone(|pool|, Of(pool, ModifiedFee));
    SumNone(|pool|, Of(pool, Fee));
    assert FeeFrom(pool, counted + {it}, d, m, it);
  }

  /** An old one gives up plain fees, and so keeps the fee delta of every further ancestor. */
  lemma NextDrift(pool: Pool, counted: set<nat>, it: nat, d: nat, m: Modified, next: Modified, first: nat)
    requires PoolOk(pool) && it in Ancestors(pool, d) && it !in counted && FeeFrom(pool, counted, d, m, first)
    requires next.modFees == m.modFees - Of(pool, Fee)(it)
    ensures FeeDrift(pool, counted + {it}, d, next)
  {
    assert Ancestors(pool, it) <= Ancestors(pool, d);
    RestStep(pool, counted, it, d, ModifiedFee);
    var before := Included(pool, counted, d) - {first};
    assert Included(pool, counted + {it}, d) - {first} == before + {it};
    TotalAdd(pool, before, it, ModifiedFee);
    TotalAdd(pool, before, it, Fee);
    assert FeeFrom(pool, counted + {it}, d, next, first);
  }

  /** The recorded fee stays exact over the update of an existing record exactly if the ancestor has no
      priority of its own: its plain fee is taken off, where a new record gives up the modified one. */
  lemma FeeStaysExactIff(pool: Pool, counted: set<nat>, mods: ModifiedSet, it: nat, d: nat)
    requires PoolOk(pool) && it in Ancestors(pool, d) && it !in counted && d in mods
    requires mods[d].modFees == Rest(pool, counted, d, ModifiedFee)
    ensures Discounted(pool, mods, it, d).modFees == Rest(pool, counted + {it}, d, ModifiedFee)
            <==> Of(pool, Fee)(it) == Of(pool, ModifiedFee)(it)
  {
    assert Ancestors(pool, it) <= Ancestors(pool, d);
    RestStep(pool, counted, it, d, ModifiedFee);
  }

  /** Two prioritised parents: after both are in, the record of their child pays for one priority
      again. */
  lemma FeeDrifts()
    ensures var parent := Entry(1, 4, 0, 1, 2, true, false, {});
            var pool := [parent, parent, Entry(1, 4, 0, 1, 1, true, false, {0, 1})];
            var once := map[2 := Discounted(pool, map[], 0, 2)];
            && PoolOk(pool) && once[2].modFees == Rest(pool, {0}, 2, ModifiedFee)
            && Discounted(pool, once, 1, 2).modFees != Rest(pool, {0} + {1}, 2, ModifiedFee)
  {
    var parent := Entry(1, 4, 0, 1, 2, true, false, {});
    var pool := [parent, parent, Entry(1, 4, 0, 1, 1, true, false, {0, 1})];
    var once := map[2 := Discounted(pool, map[], 0, 2)];
    RestOfNone(pool, {}, 2, ModifiedFee);
    RestStep(pool, {}, 0, 2, ModifiedFee);
    assert {} + {0} == {0};
    FeeStaysExactIff(pool, {0}, once, 1, 2);
  }

  /** Entries that do not depend on `it` need no update. */
  lemma OthersKeep(pool: Pool, counted: set<nat>, mods: ModifiedSet, failed: set<nat>, it: nat, i: nat)
    requires PoolOk(pool) && it !in Ancestors(pool, i) && it !in counted && i != it
    requires EntryOk(pool, counted, mods, failed, i)
    ensures EntryOk(pool, counted + {it}, mods, failed, i)
  {
    RestStep(pool, counted, it, i, Size);
    RestStep(pool, counted, it, i, SigOps);
    RestStep(pool, counted, it, i, ModifiedFee);
    assert Included(pool, counted + {it}, i) == Included(pool, counted, i);
    if i in mods && i !in failed {
      var first: nat :| FeeFrom(pool, counted, i, mods[i], first);
      assert FeeFrom(pool, counted + {it}, i, mods[i], first);
    }
  }

  // --- The order inside a block -------------------------------------------------------------

  predicate Distinct(s: seq<nat>) {
    forall j, k | 0 <= j < k < |s| :: s[j] != s[k]
  }

  /** Every transaction comes after all its in-pool ancestors. */
  ghost predicate ParentsFirst(pool: Pool, vtx: seq<nat>) {
    forall k: nat, a: nat | k < |vtx| && a in Ancestors(pool, vtx[k]) :: a in vtx[..k]
  }

  ghost predicate Closed(pool: Pool, block: set<nat>) {
    forall i <- block :: Ancestors(pool, i) <= block
  }

  lemma ParentsFirstIsClosed(pool: Pool, vtx: seq<nat>, block: set<nat>)
    requires ParentsFirst(pool, vtx) && forall i: nat :: i in block <==> i in vtx
    ensures Closed(pool, block)
  {
    forall i | i in block
      ensures Ancestors(pool, i) <= block
    {
      var k: nat :| k < |vtx| && vtx[k] == i;
      assert forall a <- Ancestors(pool, i) :: a in vtx[..k];
    }
  }

  lemma ParentsFirstAppend(pool: Pool, vtx: seq<nat>, i: nat)
    requires ParentsFirst(pool, vtx) && forall a <- Ancestors(pool, i) :: a in vtx
    ensures ParentsFirst(pool, vtx + [i])
  {
    forall k: nat, a: nat | k < |vtx + [i]| && a in Ancestors(pool, (vtx + [i])[k])
      ensures a in (vtx + [i])[..k]
    {
      assert (vtx + [i])[..k] == vtx[..k];
      assert vtx[..|vtx|] == vtx;
    }
  }

  /** CompareTxIterByAncestorCount, with the index in place of the hash. */
  predicate Before(pool: Pool, a: nat, b: nat) {
    |Ancestors(pool, a)| < |Ancestors(pool, b)| || (|Ancestors(pool, a)| == |Ancestors(pool, b)| && a < b)
  }

  predicate Sorted(pool: Pool, s: seq<nat>) {
    forall j, k | 0 <= j < k < |s| :: Before(pool, s[j], s[k])
  }

  lemma FrontFirst(pool: Pool, s: seq<nat>, x: nat, rest: seq<nat>)
    requires s != [] && Sorted(pool, s) && x !in s && !Before(pool, x, s[0])
    requires forall y: nat :: y in rest <==> y in s[1..] || y == x
    ensures forall k | 0 <= k < |rest| :: Before(pool, s[0], rest[k])
  {
    assert s[0] in s;
    forall k | 0 <= k < |rest|
      ensures Before(pool, s[0], rest[k])
    {
      if rest[k] != x {
        assert rest[k] in s[1..];
        var j :| 0 <= j < |s[1..]| && s[1..][j] == rest[k];
        assert s[j + 1] == rest[k];
      }
    }
  }

  function Inserted(pool: Pool, s: seq<nat>, x: nat): (r: seq<nat>)
    requires Sorted(pool, s) && x !in s
    ensures Sorted(pool, r) && forall y: nat :: y in r <==> y in s || y == x
  {
    if s == [] || Before(pool, x, s[0]) then
      [x] + s
    else
      assert s == [s[0]] + s[1..];
      var rest := Inserted(pool, s[1..], x);
      FrontFirst(pool, s, x, rest);
      [s[0]] + rest
  }

  /** Sorting by ancestor count puts ancestors first. */
  lemma SortedAncestors(pool: Pool, s: seq<nat>, k: nat, a: nat)
    requires PoolOk(pool) && Sorted(pool, s) && k < |s| && a in s && a in Ancestors(pool, s[k])
    ensures a in s[..k]
  {
    FewerAncestors(pool, a, s[k]);
    var j: nat :| j < |s| && s[j] == a;
    assert !Before(pool, s[k], s[j]);
    assert s[..k][j] == a;
  }

  /** What a package adds when its recorded totals passed the test. */
  lemma PackageFits(pool: Pool, block: set<nat>, i: nat, m: Modified)
    requires PoolOk(pool) && i !in block && Enough(pool, block, i, m)
    ensures Total(pool, WithAncestors(pool, i) - block, Weight) <= WITNESS_SCALE_FACTOR * m.size
    ensures Total(pool, WithAncestors(pool, i) - block, SigOps) <= m.sigOps
  {
    TotalWeight(pool, WithAncestors(pool, i) - block);
  }

  /** The record chosen for a package is never too small. */
  lemma ChosenEnough(pool: Pool, block: set<nat>, mods: ModifiedSet, failed: set<nat>, i: nat)
    requires Tracked(pool, block, block, mods, failed) && i < |pool| && i !in block
    ensures Enough(pool, block, i, if i in mods then mods[i] else Unmodified(pool, i))
  {
    assert EntryOk(pool, block, mods, failed, i);
    if i !in mods {
      RestAtMostAll(pool, block, i, Size);
      RestAtMostAll(pool, block, i, SigOps);
    }
  }

  function Members(s: seq<nat>): set<nat> {
    set i | i in s
  }

  /** Exactly the entries that depend on what was added have gained a record. */
  predicate Followed(pool: Pool, block: set<nat>, added: set<nat>, before: ModifiedSet, after: ModifiedSet) {
    forall i: nat | i < |pool| && i !in block :: i in after <==> i in before || !(Ancestors(pool, i) !! added)
  }

  /** These entries have a record now. */
  ghost predicate Grown(before: ModifiedSet, after: ModifiedSet, more: set<nat>) {
    forall i: nat :: i in after <==> i in before || i in more
  }

  /** Why the selection ended. */
  datatype Stop = Exhausted | LowFee(iter: nat, package: Modified) | NearlyFull

  /** An entry that was considered, with the totals it was judged by. */
  datatype Choice = Choice(iter: nat, package: Modified)

  /** A choice that went into the block, from one place in it up to another. */
  datatype Selection = Selection(choice: Choice, start: nat, end: nat)

  class BlockAssembler {
    const pool: Pool
    /** mapTx in the order of its ancestor score. */
    const order: seq<nat>
    const nBlockMaxWeight: nat
    const blockMinFee: int -> int
    const fIncludeWitness: bool

    /** The block's transactions after the coinbase. */
    var vtx: seq<nat>
    var vTxFees: seq<int>
    var vTxSigOpsCost: seq<int>
    var inBlock: set<nat>
    var nBlockWeight: int
    var nBlockTx: nat
    var nBlockSigOpsCost: int
    var nFees: int

    ghost predicate Setting() {
      PoolOk(pool) && nBlockMaxWeight >= COINBASE_WEIGHT && Distinct(order) &&
      forall k | 0 <= k < |order| :: order[k] < |pool|
    }

    predicate Includable(i: nat) {
      i < |pool| && pool[i].isFinal && (pool[i].hasWitness ==> fIncludeWitness)
    }

    /** The block is duplicate free, holds parents before children, and its totals are those of the
        transactions in it. */
    ghost predicate BlockOk()
      reads this
    {
      && Setting()
      && Distinct(vtx) && ParentsFirst(pool, vtx)
      && (forall i: nat :: i in inBlock <==> i in vtx)
      && (forall i: nat :: i in inBlock ==> Includable(i))
      && |vTxFees| == |vTxSigOpsCost| == |vtx| == nBlockTx
      && (forall k | 0 <= k < |vtx| ::
            vTxFees[k] == Of(pool, Fee)(vtx[k]) && vTxSigOpsCost[k] == Of(pool, SigOps)(vtx[k]))
      && nBlockWeight == COINBASE_WEIGHT + Total(pool, inBlock, Weight)
      && nBlockSigOpsCost == COINBASE_SIGOPS + Total(pool, inBlock, SigOps)
      && nFees == Total(pool, inBlock, Fee)
    }

    ghost predicate WithinLimits()
      reads this
    {
      nBlockWeight <= nBlockMaxWeight && nBlockSigOpsCost < MAX_BLOCK_SIGOPS_COST
    }

    /** Too much for the block: by weight or by sigops, with what is kept for the coinbase. */
    ghost predicate TooBigFor(block: set<nat>, size: int, sigOps: int) {
      || 4000 + Total(pool, block, Weight) + 4 * size >= nBlockMaxWeight
      || 400 + Total(pool, block, SigOps) + sigOps >= 80_000
    }

    /** The rest of this package does not go with the block: it is too big or not all of it may be
        included. */
    ghost predicate Refuses(block: set<nat>, i: nat) {
      || TooBigFor(block, Rest(pool, block, i, Size), Rest(pool, block, i, SigOps))
      || exists a <- WithAncestors(pool, i) - block :: !Includable(a)
    }

    /** The package was refused at a time when the block held some of it already. */
    ghost predicate RefusedLate(block: seq<nat>, i: nat) {
      exists k: nat :: k <= |block| && RefusedThen(Members(block[..k]), i)
    }

    ghost predicate RefusedThen(block: set<nat>, i: nat) {
      !(Ancestors(pool, i) !! block) && Refuses(block, i)
    }

    constructor (pool: Pool, order: seq<nat>, nMaxWeight: nat, maxBlockWeight: nat, blockMinFee: int -> int,
                 fIncludeWitness: bool)
      requires PoolOk(pool) && Distinct(order) && forall k | 0 <= k < |order| :: order[k] < |pool|
      ensures BlockOk() && WithinLimits() && vtx == [] && this.pool == pool && this.order == order
      ensures nBlockMaxWeight >= 4000 && (nBlockMaxWeight <= maxBlockWeight - 4000 || nBlockMaxWeight == 4000)
      ensures 4000 <= nMaxWeight <= maxBlockWeight - 4000 ==> nBlockMaxWeight == nMaxWeight
      ensures nMaxWeight > maxBlockWeight - 4000 >= 4000 ==> nBlockMaxWeight == maxBlockWeight - 4000
    {
      this.pool, this.order, this.blockMinFee, this.fIncludeWitness := pool, order, blockMinFee, fIncludeWitness;
      var most := if maxBlockWeight - 4000 < nMaxWeight then maxBlockWeight - 4000 else nMaxWeight;
      nBlockMaxWeight := if most < 4000 then 4000 else most;
      vtx, vTxFees, vTxSigOpsCost, inBlock := [], [], [], {};
      nBlockWeight, nBlockTx, nBlockSigOpsCost, nFees := COINBASE_WEIGHT, 0, COINBASE_SIGOPS, 0;
      SumNone(|pool|, Of(pool, Weight));
      SumNone(|pool|, Of(pool, SigOps));
      SumNone(|pool|, Of(pool, Fee));
    }

    predicate TestPackage(packageSize: int, packageSigOpsCost: int)
      reads this
    {
      && nBlockWeight + WITNESS_SCALE_FACTOR * packageSize < nBlockMaxWeight
      && nBlockSigOpsCost + packageSigOpsCost < MAX_BLOCK_SIGOPS_COST
    }

    predicate SkipMapTxEntry(i: nat, mods: ModifiedSet, failed: set<nat>)
      reads this
    {
      i in mods || i in inBlock || i in failed
    }

    method OnlyUnconfirmed(testSet: set<nat>) returns (r: set<nat>)
      ensures r == testSet - inBlock
    {
      var todo := testSet;
      r := testSet;
      while todo != {}
        invariant todo <= testSet && r == testSet - (inBlock - todo)
        decreases |todo|
      {
        var i :| i in todo;
        if i in inBlock {
          r := r - {i};
        }
        todo := todo - {i};
      }
    }

    method TestPackageTransactions(package: set<nat>) returns (ok: bool)
      requires forall i <- package :: i < |pool|
      ensures ok <==> forall i <- package :: Includable(i)
    {
      var todo := package;
      while todo != {}
        invariant todo <= package && forall i <- package - todo :: Includable(i)
        decreases |todo|
      {
        var i :| i in todo;
        if !pool[i].isFinal {
          return false;
        }
        if !fIncludeWitness && pool[i].hasWitness {
          return false;
        }
        todo := todo - {i};
      }
      return true;
    }

    method SortForBlock(package: set<nat>) returns (sortedEntries: seq<nat>)
      ensures Sorted(pool, sortedEntries) && forall i: nat :: i in sortedEntries <==> i in package
    {
      var todo := package;
      sortedEntries := [];
      while todo != {}
        invariant todo <= package && Sorted(pool, sortedEntries)
        invariant forall i: nat :: i in sortedEntries <==> i in package - todo
        decreases |todo|
      {
        var i :| i in todo;
        sortedEntries := Inserted(pool, sortedEntries, i);
        todo := todo - {i};
      }
    }

    method AddToBlock(i: nat)
      requires BlockOk() && Includable(i) && i !in inBlock && Ancestors(pool, i) <= inBlock
      modifies this
      ensures BlockOk() && vtx == old(vtx) + [i] && inBlock == old(inBlock) + {i}
    {
      TotalAdd(pool, inBlock, i, Weight);
      TotalAdd(pool, inBlock, i, SigOps);
      TotalAdd(pool, inBlock, i, Fee);
      ParentsFirstAppend(pool, vtx, i);
      vtx := vtx + [i];
      vTxFees := vTxFees + [pool[i].fee];
      vTxSigOpsCost := vTxSigOpsCost + [pool[i].sigOps];
      nBlockWeight := nBlockWeight + pool[i].weight;
      nBlockTx := nBlockTx + 1;
      nBlockSigOpsCost := nBlockSigOpsCost + pool[i].sigOps;
      nFees := nFees + pool[i].fee;
      inBlock := inBlock + {i};
    }

    /** Records, for the descendants of the transactions just added, that these need no longer be
        paid for. */
    method UpdatePackagesForAdded(alreadyAdded: set<nat>, mapModifiedTx: ModifiedSet, ghost failed: set<nat>)
      returns (mods: ModifiedSet, nDescendantsUpdated: nat)
      requires PoolOk(pool) && alreadyAdded <= inBlock && Closed(pool, inBlock - alreadyAdded)
      requires forall i <- inBlock :: i < |pool|
      requires Tracked(pool, inBlock, inBlock - alreadyAdded, mapModifiedTx, failed)
      ensures Tracked(pool, inBlock, inBlock, mods, failed)
      ensures Followed(pool, inBlock, alreadyAdded, mapModifiedTx, mods)
      ensures nDescendantsUpdated == Sum(alreadyAdded, |pool|, Updates(pool, alreadyAdded))
    {
      hide Tracked, Closed, Updates, Followed, Grown, Descendants;
      mods, nDescendantsUpdated := mapModifiedTx, 0;
      var todo := alreadyAdded;
      assert inBlock - {} == inBlock && alreadyAdded - alreadyAdded == {};
      FollowedNothing(pool, inBlock, mapModifiedTx);
      SumNone(|pool|, Updates(pool, alreadyAdded));
      while todo != {}
        invariant todo <= alreadyAdded
        invariant Tracked(pool, inBlock, inBlock - todo, mods, failed)
        invariant Followed(pool, inBlock, alreadyAdded - todo, mapModifiedTx, mods)
        invariant nDescendantsUpdated == Sum(alreadyAdded - todo, |pool|, Updates(pool, alreadyAdded))
        decreases |todo|
      {
        var it :| it in todo;
        var n: nat;
        ghost var before := mods;
        mods, n := UpdateDescendants(alreadyAdded, it, inBlock - todo, mods, failed);
        FollowedOneMore(pool, inBlock, alreadyAdded, todo, it, mapModifiedTx, before, mods);
        AddOneMore(pool, alreadyAdded, todo, it);
        assert inBlock - todo + {it} == inBlock - (todo - {it});
        nDescendantsUpdated := nDescendantsUpdated + n;
        todo := todo - {it};
      }
      assert inBlock - todo == inBlock && alreadyAdded - todo == alreadyAdded;
    }

    /** The records of the descendants of one added transaction. */
    method UpdateDescendants(alreadyAdded: set<nat>, it: nat, ghost counted: set<nat>, mapModifiedTx: ModifiedSet,
                             ghost failed: set<nat>)
      returns (mods: ModifiedSet, n: nat)
      requires PoolOk(pool) && it in alreadyAdded && alreadyAdded <= inBlock && Closed(pool, inBlock - alreadyAdded)
      requires counted <= inBlock && it !in counted
      requires Tracked(pool, inBlock, counted, mapModifiedTx, failed)
      ensures Tracked(pool, inBlock, counted + {it}, mods, failed)
      ensures Grown(mapModifiedTx, mods, Descendants(pool, it) - alreadyAdded)
      ensures n == |Descendants(pool, it) - alreadyAdded|
    {
      hide Tracked, PartlyTracked, Discounted, Closed, Descendants, Grown;
      mods, n := mapModifiedTx, 0;
      var descendants := Descendants(pool, it) - alreadyAdded;
      DescendantsOutside(pool, inBlock, alreadyAdded, it);
      var todo := descendants;
      GrownByNothing(mapModifiedTx, descendants);
      UpdateStarts(pool, inBlock, counted, it, todo, mods, failed);
      while todo != {}
        invariant todo <= descendants && n == |descendants| - |todo|
        invariant Grown(mapModifiedTx, mods, descendants - todo)
        invariant PartlyTracked(pool, inBlock, counted, it, todo, mods, failed)
        decreases |todo|
      {
        var d :| d in todo;
        UpdateKeeps(pool, inBlock, counted, it, todo, mods, failed, d);
        GrownByOne(mapModifiedTx, mods, descendants, todo, d, Discounted(pool, mods, it, d));
        mods := mods[d := Discounted(pool, mods, it, d)];
        n := n + 1;
        todo := todo - {d};
      }
      UpdateEnds(pool, inBlock, counted, it, todo, mods, failed);
      assert descendants - todo == descendants;
    }

    /** Adds a package whose recorded totals fit, parents first, and updates the records of everything
        that depends on it. */
    method AddPackage(i: nat, package: set<nat>, mapModifiedTx: ModifiedSet, ghost failed: set<nat>, ghost m: Modified)
      returns (mods: ModifiedSet, nDescendantsUpdated: nat)
      requires BlockOk() && WithinLimits() && Tracked(pool, inBlock, inBlock, mapModifiedTx, failed)
      requires i < |pool| && i !in inBlock && package == WithAncestors(pool, i) - inBlock
      requires forall j <- package :: Includable(j)
      requires Enough(pool, inBlock, i, m) && TestPackage(m.size, m.sigOps)
      modifies this
      ensures BlockOk() && WithinLimits() && nBlockWeight < nBlockMaxWeight
      ensures Tracked(pool, inBlock, inBlock, mods, failed) && Followed(pool, inBlock, package, mapModifiedTx, mods)
      ensures inBlock == old(inBlock) + package && old(vtx) < vtx
    {
      hide Tracked, Enough, Closed, Sorted, Followed, ParentsFirst, Distinct;
      var sortedEntries := SortForBlock(package);
      TrackedKeys(pool, inBlock, mapModifiedTx, failed);
      ghost var block := inBlock;
      PackageFits(pool, inBlock, i, m);
      TotalUnion(pool, inBlock, package, Weight);
      TotalUnion(pool, inBlock, package, SigOps);
      ParentsFirstIsClosed(pool, vtx, inBlock);
      assert i in sortedEntries;
      var left := AddEntries(i, sortedEntries, mapModifiedTx);
      assert inBlock - package == block;
      ErasedTracked(pool, block, inBlock, mapModifiedTx, left, failed);
      mods, nDescendantsUpdated := UpdatePackagesForAdded(package, left, failed);
      FollowedErased(pool, inBlock, package, mapModifiedTx, left, mods);
    }

    /** Adds the sorted entries of a package, and erases their records. */
    method AddEntries(ghost i: nat, sortedEntries: seq<nat>, mapModifiedTx: ModifiedSet) returns (mods: ModifiedSet)
      requires BlockOk() && Sorted(pool, sortedEntries)
      requires forall j: nat :: j in sortedEntries <==> j in WithAncestors(pool, i) - inBlock
      requires forall j <- sortedEntries :: Includable(j)
      requires mapModifiedTx.Keys == mapModifiedTx.Keys - inBlock
      modifies this
      ensures BlockOk() && inBlock == old(inBlock) + (WithAncestors(pool, i) - old(inBlock))
      ensures old(vtx) <= vtx && |vtx| == |old(vtx)| + |sortedEntries|
      ensures mods.Keys == mapModifiedTx.Keys - inBlock && forall j <- mods :: mods[j] == mapModifiedTx[j]
    {
      hide Closed, Sorted, ParentsFirst, Distinct;
      mods := mapModifiedTx;
      ghost var block := inBlock;
      ParentsFirstIsClosed(pool, vtx, inBlock);
      var k := 0;
      while k < |sortedEntries|
        invariant 0 <= k <= |sortedEntries| && BlockOk()
        invariant old(vtx) <= vtx && |vtx| == |old(vtx)| + k
        invariant forall j: nat :: j in inBlock <==> j in block || j in sortedEntries[..k]
        invariant mods.Keys == mapModifiedTx.Keys - inBlock && forall j <- mods :: mods[j] == mapModifiedTx[j]
      {
        var next := sortedEntries[k];
        assert next in sortedEntries;
        NotTwice(pool, sortedEntries, k);
        forall a: nat | a in Ancestors(pool, next)
          ensures a in inBlock
        {
          AncestorThere(pool, block, i, sortedEntries, k, a);
        }
        AddToBlock(next);
        mods := mods - {next};
        k := k + 1;
      }
      assert sortedEntries[..k] == sortedEntries;
    }

    lemma TrackedEntry(mods: ModifiedSet, failed: set<nat>, i: nat)
      requires BlockOk() && Tracked(pool, inBlock, inBlock, mods, failed) && (i in mods || i in order)
      ensures i < |pool| && (i in mods ==> i !in inBlock)
    {
    }

    /** Every entry the search has passed is in the block, still recorded, or was refused; dropped
        entries were refused late, and recorded ones have an ancestor in the block. */
    ghost predicate Searched(block: set<nat>, s: seq<nat>, mods: ModifiedSet, failed: set<nat>, mi: nat) {
      && mi <= |order|
      && (forall i <- mods :: !(Ancestors(pool, i) !! block))
      && (forall i <- failed :: RefusedLate(s, i))
      && (forall k | 0 <= k < mi :: Passed(block, s, mods, order[k]))
    }

    ghost predicate Passed(block: set<nat>, s: seq<nat>, mods: ModifiedSet, i: nat) {
      i in mods || Decided(block, s, i)
    }

    ghost predicate Decided(block: set<nat>, s: seq<nat>, i: nat) {
      i in block || Refuses(block, i) || RefusedLate(s, i)
    }

    lemma SearchStarts(block: set<nat>, s: seq<nat>, mods: ModifiedSet)
      requires KeysOk(pool, block, mods) && Followed(pool, block, block, map[], mods)
      ensures Searched(block, s, mods, {}, 0)
    {
    }

    lemma SearchPasses(block: set<nat>, s: seq<nat>, mods: ModifiedSet, failed: set<nat>, mi: nat)
      requires Searched(block, s, mods, failed, mi) && mi < |order|
      requires order[mi] in failed || Passed(block, s, mods, order[mi])
      ensures Searched(block, s, mods, failed, mi + 1)
    {
    }

    lemma SearchSkips(block: set<nat>, s: seq<nat>, mods: ModifiedSet, failed: set<nat>, mi: nat)
      requires Searched(block, s, mods, failed, mi) && mi < |order|
      requires order[mi] in mods || order[mi] in block || order[mi] in failed
      ensures Searched(block, s, mods, failed, mi + 1)
    {
    }

    /** The totals an entry is judged by are not too small, and exact unless it was refused late. */
    lemma ChosenRecord(block: set<nat>, s: seq<nat>, mods: ModifiedSet, failed: set<nat>, mi: nat, i: nat)
      requires Searched(block, s, mods, failed, mi) && Tracked(pool, block, block, mods, failed) && i < |pool|
      requires i !in block
      ensures var m := if i in mods then mods[i] else Unmodified(pool, i);
              Enough(pool, block, i, m) && (Judged(pool, block, i, m) || RefusedLate(s, i))
    {
      hide RefusedLate, FeeDrift;
      ChosenEnough(pool, block, mods, failed, i);
      assert EntryOk(pool, block, mods, failed, i);
      if i !in mods && i !in failed {
        RestOfNone(pool, block, i, Size);
        RestOfNone(pool, block, i, SigOps);
        RestOfNone(pool, block, i, ModifiedFee);
      }
    }

    lemma SearchEnds(block: set<nat>, s: seq<nat>, mods: ModifiedSet, failed: set<nat>, mi: nat)
      requires Searched(block, s, mods, failed, mi) && mi == |order| && mods == map[]
      ensures forall k | 0 <= k < |order| :: Decided(block, s, order[k])
    {
      forall k | 0 <= k < |order|
        ensures Decided(block, s, order[k])
      {
        assert Passed(block, s, mods, order[k]);
      }
    }

    lemma SearchDrops(block: set<nat>, s: seq<nat>, mods: ModifiedSet, failed: set<nat>, mi: nat, i: nat)
      requires Searched(block, s, mods, failed, mi) && i in mods && (i in failed || Refuses(block, i))
      requires forall j: nat :: j in block <==> j in s
      ensures Searched(block, s, mods - {i}, failed + {i}, mi)
    {
      hide Refuses;
      assert s[..|s|] == s && Members(s) == block;
      assert i !in failed ==> RefusedThen(Members(s[..|s|]), i);
    }

    lemma SearchAdds(block: set<nat>, added: set<nat>, s: seq<nat>, t: seq<nat>, mods: ModifiedSet,
                     after: ModifiedSet, failed: set<nat>, mi: nat)
      requires Setting() && Searched(block, s, mods, failed, mi) && s <= t && added !! block
      requires KeysOk(pool, block + added, after) && Followed(pool, block + added, added, mods, after)
      ensures Searched(block + added, t, after, failed, mi)
    {
      hide Refuses;
      forall i | i in failed
        ensures RefusedLate(t, i)
      {
        LateStays(s, t, i);
      }
      forall k | 0 <= k < mi
        ensures Passed(block + added, t, after, order[k])
      {
        PassedStays(block, added, s, t, mods, after, order[k]);
      }
      assert forall i <- after :: i in mods || !(Ancestors(pool, i) !! added);
    }

    lemma LateStays(s: seq<nat>, t: seq<nat>, i: nat)
      requires RefusedLate(s, i) && s <= t
      ensures RefusedLate(t, i)
    {
      hide RefusedThen;
      var k: nat :| k <= |s| && RefusedThen(Members(s[..k]), i);
      assert t[..k] == s[..k];
    }

    lemma PassedStays(block: set<nat>, added: set<nat>, s: seq<nat>, t: seq<nat>, mods: ModifiedSet,
                      after: ModifiedSet, i: nat)
      requires Passed(block, s, mods, i) && i < |pool| && s <= t && added !! block
      requires Followed(pool, block + added, added, mods, after)
      ensures Passed(block + added, t, after, i)
    {
      hide Refuses, RefusedLate;
      if RefusedLate(s, i) {
        LateStays(s, t, i);
      } else if i !in block + added && i !in after {
        RefusesStays(block, added, i);
      }
    }

    /** A block that grows by other things still refuses. */
    lemma RefusesStays(block: set<nat>, added: set<nat>, i: nat)
      requires Refuses(block, i) && Ancestors(pool, i) !! added && i !in added
      ensures Refuses(block + added, i)
    {
      assert WithAncestors(pool, i) - (block + added) == WithAncestors(pool, i) - block;
      TotalMono(pool, block, block + added, Weight);
      TotalMono(pool, block, block + added, SigOps);
    }

    /** An entry that was not dropped before is judged by its exact totals. */
    lemma RecordRefuses(mods: ModifiedSet, failed: set<nat>, i: nat, m: Modified)
      requires BlockOk() && Tracked(pool, inBlock, inBlock, mods, failed) && i < |pool| && i !in inBlock && i !in failed
      requires m == (if i in mods then mods[i] else Unmodified(pool, i)) && !TestPackage(m.size, m.sigOps)
      ensures Refuses(inBlock, i)
    {
      assert EntryOk(pool, inBlock, mods, failed, i);
      if i !in mods {
        RestOfNone(pool, inBlock, i, Size);
        RestOfNone(pool, inBlock, i, SigOps);
      }
    }

    // --- What was added and what was refused ------------------------------------------------

    /** The totals an entry was judged by, when the block was `s`: not too small, exact unless it was refused
        late, and they pay. */
    ghost predicate Considered(block: set<nat>, s: seq<nat>, c: Choice) {
      && c.iter < |pool| && c.iter !in block && c.package.modFees >= blockMinFee(c.package.size)
      && Enough(pool, block, c.iter, c.package)
      && (Judged(pool, block, c.iter, c.package) || RefusedLate(s, c.iter))
    }

    /** The part of the block that a choice brought: what was missing of its package. */
    ghost predicate Selected(s: seq<nat>, c: Selection) {
      && c.start < c.end <= |s|
      && Members(s[c.start..c.end]) == WithAncestors(pool, c.choice.iter) - Members(s[..c.start])
      && Considered(Members(s[..c.start]), s[..c.start], c.choice)
    }

    /** The block from a place on is made of the choices, one after the other. */
    ghost predicate AllSelected(s: seq<nat>, start: nat, added: seq<Selection>) {
      && (forall j | 0 <= j < |added| :: Selected(s, added[j]))
      && (forall j | 0 < j < |added| :: added[j].start == added[j - 1].end)
      && (if added == [] then start == |s| else added[0].start == start && added[|added| - 1].end == |s|)
    }

    lemma SelectedStays(s: seq<nat>, t: seq<nat>, c: Selection)
      requires Selected(s, c) && s <= t
      ensures Selected(t, c)
    {
      assert t[..c.start] == s[..c.start] && t[c.start..c.end] == s[c.start..c.end];
    }

    lemma SelectedMore(s: seq<nat>, t: seq<nat>, start: nat, added: seq<Selection>, c: Choice)
      requires AllSelected(s, start, added) && s < t && Distinct(t) && Considered(Members(s), s, c)
      requires Members(t) == Members(s) + WithAncestors(pool, c.iter)
      ensures AllSelected(t, start, added + [Selection(c, |s|, |t|)])
    {
      hide Considered, Selected;
      forall j | 0 <= j < |added|
        ensures Selected(t, added[j])
      {
        SelectedStays(s, t, added[j]);
      }
      SelectedLast(s, t, c);
    }

    lemma SelectedLast(s: seq<nat>, t: seq<nat>, c: Choice)
      requires s < t && Distinct(t) && Considered(Members(s), s, c)
      requires Members(t) == Members(s) + WithAncestors(pool, c.iter)
      ensures Selected(t, Selection(c, |s|, |t|))
    {
      hide Considered;
      var more := t[|s|..|t|];
      assert t[..|s|] == s;
      forall i: nat
        ensures i in Members(more) <==> i in WithAncestors(pool, c.iter) && i !in Members(s)
      {
        Behind(s, t, i);
      }
    }

    /** Different entries that the block is too full for. */
    ghost predicate Refusals(block: set<nat>, s: seq<nat>, refused: seq<Choice>) {
      && (forall j | 0 <= j < |refused| ::
            && Considered(block, s, refused[j])
            && TooBigFor(block, refused[j].package.size, refused[j].package.sigOps))
      && (forall j, k | 0 <= j < k < |refused| :: refused[j].iter != refused[k].iter)
    }

    /** None of them comes up again before something is added. */
    ghost predicate Gone(mods: ModifiedSet, failed: set<nat>, mi: nat, refused: seq<Choice>) {
      && mi <= |order|
      && (forall j | 0 <= j < |refused| ::
            refused[j].iter !in mods && (refused[j].iter in failed || refused[j].iter in order[..mi]))
    }

    lemma GoneStays(mods: ModifiedSet, after: ModifiedSet, failed: set<nat>, failedAfter: set<nat>, mi: nat, next: nat,
                    refused: seq<Choice>)
      requires Gone(mods, failed, mi, refused) && mi <= next <= |order| && failed <= failedAfter
      requires after.Keys <= mods.Keys
      ensures Gone(after, failedAfter, next, refused)
    {
      assert order[..mi] == order[..next][..mi];
      forall j | 0 <= j < |refused|
        ensures refused[j].iter !in after
      {
        assert refused[j].iter !in mods.Keys;
      }
    }

    /** An entry that comes up was not refused since the last addition. */
    lemma NotGone(mods: ModifiedSet, failed: set<nat>, mi: nat, refused: seq<Choice>, i: nat)
      requires Gone(mods, failed, mi, refused) && Distinct(order)
      requires i in mods || (mi < |order| && i == order[mi] && i !in failed)
      ensures forall j | 0 <= j < |refused| :: refused[j].iter != i
    {
      forall j | 0 <= j < |refused|
        ensures refused[j].iter != i
      {
        if refused[j].iter in order[..mi] {
          var k :| 0 <= k < mi && order[..mi][k] == refused[j].iter;
          assert order[k] == refused[j].iter;
        }
      }
    }

    /** At most as many as are outside the block. */
    lemma RefusalsOutside(block: set<nat>, s: seq<nat>, refused: seq<Choice>)
      requires Refusals(block, s, refused)
      ensures |refused| <= |Outside(pool, block)|
    {
      hide Considered, TooBigFor;
      var ids := seq(|refused|, j requires 0 <= j < |refused| => refused[j].iter);
      forall i | i in Members(ids)
        ensures i in Outside(pool, block)
      {
        var j :| 0 <= j < |ids| && ids[j] == i;
        InConsidered(block, s, refused[j]);
      }
      MembersCount(ids);
      SmallerSet(Members(ids), Outside(pool, block));
    }

    lemma InConsidered(block: set<nat>, s: seq<nat>, c: Choice)
      requires Considered(block, s, c)
      ensures c.iter in Outside(pool, block)
    {
    }

    /** A refused choice is too big for the block. */
    lemma RefusedTooBig(m: Modified)
      requires BlockOk() && !TestPackage(m.size, m.sigOps)
      ensures TooBigFor(inBlock, m.size, m.sigOps)
    {
    }

    /** Selects packages until nothing is left to consider, the fee rate is too low, or the block is
        nearly full after too many failures. The block grows by whole packages that pay, one after the other.
        When nothing is left, every entry is in the block, or its package does not go with it, or it was
        refused after some of its ancestors went in. When the fee rate was too low, it was that of a real
        package: judged by exact totals, or refused before. The block is nearly full exactly if it is, and
        more than a thousand different packages were refused in a row as too big for it. */
    method AddPackageTxs()
      returns (nPackagesSelected: nat, nDescendantsUpdated: nat, ghost why: Stop, ghost added: seq<Selection>,
               ghost refused: seq<Choice>)
      requires BlockOk() && WithinLimits()
      modifies this
      ensures BlockOk() && WithinLimits() && old(vtx) <= vtx
      ensures vtx == old(vtx) || nBlockWeight < nBlockMaxWeight
      ensures nBlockWeight == 4000 + Total(pool, inBlock, Weight) && 400 + Total(pool, inBlock, SigOps) < 80_000
      ensures AllSelected(vtx, |old(vtx)|, added) && nPackagesSelected == |added|
      ensures why == Exhausted ==> forall k | 0 <= k < |order| :: Decided(inBlock, vtx, order[k])
      ensures Refusals(inBlock, vtx, refused)
      ensures why == NearlyFull <==> |refused| > 1000 && nBlockWeight > nBlockMaxWeight - 4000
      ensures |Outside(pool, inBlock)| <= 1000 ==> why != NearlyFull
      ensures why.LowFee? ==>
                && why.iter < |pool| && why.iter !in inBlock && why.package.modFees < blockMinFee(why.package.size)
                && Enough(pool, inBlock, why.iter, why.package)
                && (Judged(pool, inBlock, why.iter, why.package) || RefusedLate(vtx, why.iter))
    {
      hide Tracked, Enough, Judged, RefusedLate, Closed, ParentsFirst, Distinct, Searched, Decided, Followed, KeysOk,
        Unmodified, Outside, BlockOk, PoolOk, Ancestors, AllSelected, Refusals, Gone, Total, Setting,
        WithinLimits, Members, WithAncestors;
      nPackagesSelected, why, added, refused := 0, Exhausted, [], [];
      var failedTx: set<nat> := {};
      var mapModifiedTx, n := StartSearch();
      nDescendantsUpdated := n;
      var mi: nat, nConsecutiveFailed := 0, 0;
      NothingSelected(mapModifiedTx);
      while mi < |order| || mapModifiedTx != map[]
        invariant BlockOk() && WithinLimits() && 0 <= mi <= |order| && why == Exhausted
        invariant old(vtx) <= vtx && (vtx == old(vtx) || nBlockWeight < nBlockMaxWeight)
        invariant Tracked(pool, inBlock, inBlock, mapModifiedTx, failedTx)
        invariant Searched(inBlock, vtx, mapModifiedTx, failedTx, mi)
        invariant AllSelected(vtx, |old(vtx)|, added) && nPackagesSelected == |added|
        invariant Refusals(inBlock, vtx, refused) && Gone(mapModifiedTx, failedTx, mi, refused)
        invariant nConsecutiveFailed == |refused|
        invariant |refused| <= 1000 || nBlockWeight <= nBlockMaxWeight - 4000
        decreases |Outside(pool, inBlock)|, |order| - mi + |mapModifiedTx|
      {
        if mi < |order| && SkipMapTxEntry(order[mi], mapModifiedTx, failedTx) {
          SearchSkips(inBlock, vtx, mapModifiedTx, failedTx, mi);
          GoneStays(mapModifiedTx, mapModifiedTx, failedTx, failedTx, mi, mi + 1, refused);
          mi := mi + 1;
          continue;
        }
        ghost var at := mi;
        var iter, fUsingModified := Choose(mi, mapModifiedTx);
        if !fUsingModified {
          mi := mi + 1;
        }
        TrackedEntry(mapModifiedTx, failedTx, iter);
        assert iter !in inBlock;
        var package := if fUsingModified then mapModifiedTx[iter] else Unmodified(pool, iter);
        ChosenRecord(inBlock, vtx, mapModifiedTx, failedTx, at, iter);
        if package.modFees < blockMinFee(package.size) {
          why := LowFee(iter, package);
          RefusalsOutside(inBlock, vtx, refused);
          TotalsNow();
          return;
        }
        var outcome;
        outcome, mapModifiedTx, failedTx, n, added, refused :=
          Account(iter, fUsingModified, package, mapModifiedTx, failedTx, at, |old(vtx)|, added, refused);
        if outcome == Added {
          nConsecutiveFailed := 0;
          nPackagesSelected := nPackagesSelected + 1;
          nDescendantsUpdated := nDescendantsUpdated + n;
          continue;
        }
        if outcome == TooBig {
          nConsecutiveFailed := nConsecutiveFailed + 1;
          if nConsecutiveFailed > MAX_CONSECUTIVE_FAILURES && nBlockWeight > nBlockMaxWeight - 4000 {
            why := NearlyFull;
            break;
          }
        }
      }
      RefusalsOutside(inBlock, vtx, refused);
      TotalsNow();
      if why == Exhausted {
        SearchEnds(inBlock, vtx, mapModifiedTx, failedTx, mi);
      }
    }

    /** Considers an entry and keeps account of what was added and refused. */
    method Account(iter: nat, fUsingModified: bool, package: Modified, mapModifiedTx: ModifiedSet, failedTx: set<nat>,
                   ghost at: nat, ghost start: nat, ghost addedTo: seq<Selection>, ghost refusedTo: seq<Choice>)
      returns (outcome: Outcome, mods: ModifiedSet, failed: set<nat>, n: nat, ghost added: seq<Selection>,
               ghost refused: seq<Choice>)
      requires BlockOk() && WithinLimits() && Tracked(pool, inBlock, inBlock, mapModifiedTx, failedTx)
      requires Searched(inBlock, vtx, mapModifiedTx, failedTx, at) && iter < |pool| && iter !in inBlock
      requires fUsingModified <==> iter in mapModifiedTx
      requires !fUsingModified ==> at < |order| && iter == order[at] && iter !in failedTx
      requires package == if fUsingModified then mapModifiedTx[iter] else Unmodified(pool, iter)
      requires package.modFees >= blockMinFee(package.size) && at <= |order|
      requires AllSelected(vtx, start, addedTo)
      requires Refusals(inBlock, vtx, refusedTo) && Gone(mapModifiedTx, failedTx, at, refusedTo)
      modifies this
      ensures BlockOk() && WithinLimits() && Tracked(pool, inBlock, inBlock, mods, failed)
      ensures var next := if fUsingModified then at else at + 1;
              && Searched(inBlock, vtx, mods, failed, next) && AllSelected(vtx, start, added)
              && Refusals(inBlock, vtx, refused) && Gone(mods, failed, next, refused)
      ensures outcome == Added ==>
                && old(vtx) < vtx && nBlockWeight < nBlockMaxWeight && |added| == |addedTo| + 1 && refused == []
                && |Outside(pool, inBlock)| < |Outside(pool, old(inBlock))|
      ensures outcome != Added ==>
                && vtx == old(vtx) && inBlock == old(inBlock) && nBlockWeight == old(nBlockWeight) && added == addedTo
                && |mods| == |mapModifiedTx| - (if fUsingModified then 1 else 0)
                && |refused| == |refusedTo| + if outcome == TooBig then 1 else 0
    {
      hide Tracked, Enough, Judged, RefusedLate, Closed, ParentsFirst, Distinct, Searched, Followed, KeysOk,
        Unmodified, Outside, BlockOk, PoolOk, Ancestors, AllSelected, Refusals, Gone, Considered;
      added, refused := addedTo, refusedTo;
      ghost var choice, before, next := Choice(iter, package), vtx, if fUsingModified then at else at + 1;
      ChosenRecord(inBlock, vtx, mapModifiedTx, failedTx, at, iter);
      NowConsidered(choice);
      NotGoneYet(mapModifiedTx, failedTx, at, refused, iter);
      outcome, mods, failed, n := Consider(iter, fUsingModified, package, mapModifiedTx, failedTx, at);
      if outcome == Added {
        AddedSelected(before, start, added, choice);
        added, refused := added + [Selection(choice, |before|, |vtx|)], [];
        NothingRefused(mods, failed, next);
      } else {
        GoneStays(mapModifiedTx, mods, failedTx, failed, at, next, refused);
        if outcome == TooBig {
          RefusedTooBig(package);
          RefusedMore(mods, failed, next, refused, choice);
          refused := refused + [choice];
        }
      }
    }

    lemma TotalsNow()
      requires BlockOk() && WithinLimits()
      ensures nBlockWeight == 4000 + Total(pool, inBlock, Weight) && 400 + Total(pool, inBlock, SigOps) < 80_000
    {
    }

    lemma NothingSelected(mods: ModifiedSet)
      ensures AllSelected(vtx, |vtx|, []) && Refusals(inBlock, vtx, []) && Gone(mods, {}, 0, [])
    {
    }

    lemma NothingRefused(mods: ModifiedSet, failed: set<nat>, mi: nat)
      requires mi <= |order|
      ensures Refusals(inBlock, vtx, []) && Gone(mods, failed, mi, [])
    {
    }

    lemma NowConsidered(c: Choice)
      requires BlockOk() && c.iter < |pool| && c.iter !in inBlock && c.package.modFees >= blockMinFee(c.package.size)
      requires Enough(pool, inBlock, c.iter, c.package)
      requires Judged(pool, inBlock, c.iter, c.package) || RefusedLate(vtx, c.iter)
      ensures Considered(inBlock, vtx, c) && inBlock == Members(vtx)
    {
      hide Enough, Judged, RefusedLate;
    }

    lemma RefusedMore(mods: ModifiedSet, failed: set<nat>, mi: nat, refused: seq<Choice>, c: Choice)
      requires Refusals(inBlock, vtx, refused) && Gone(mods, failed, mi, refused)
      requires Considered(inBlock, vtx, c) && TooBigFor(inBlock, c.package.size, c.package.sigOps)
      requires forall j | 0 <= j < |refused| :: refused[j].iter != c.iter
      requires c.iter !in mods && (c.iter in failed || c.iter in order[..mi])
      ensures Refusals(inBlock, vtx, refused + [c]) && Gone(mods, failed, mi, refused + [c])
    {
      hide Considered, TooBigFor;
    }

    lemma NotGoneYet(mods: ModifiedSet, failed: set<nat>, mi: nat, refused: seq<Choice>, i: nat)
      requires BlockOk() && Gone(mods, failed, mi, refused)
      requires i in mods || (mi < |order| && i == order[mi] && i !in failed)
      ensures forall j | 0 <= j < |refused| :: refused[j].iter != i
      ensures mi < |order| && i == order[mi] ==> i in order[..mi + 1]
    {
      NotGone(mods, failed, mi, refused, i);
      if mi < |order| && i == order[mi] {
        assert order[..mi + 1][mi] == i;
      }
    }

    lemma AddedSelected(before: seq<nat>, start: nat, added: seq<Selection>, c: Choice)
      requires BlockOk() && before < vtx && AllSelected(before, start, added) && Considered(Members(before), before, c)
      requires inBlock == Members(before) + WithAncestors(pool, c.iter)
      ensures AllSelected(vtx, start, added + [Selection(c, |before|, |vtx|)])
    {
      hide AllSelected, Considered;
      assert Members(vtx) == inBlock;
      SelectedMore(before, vtx, start, added, c);
    }

    /** Records what is in the block before the search starts. */
    method StartSearch() returns (mods: ModifiedSet, n: nat)
      requires BlockOk()
      ensures Tracked(pool, inBlock, inBlock, mods, {}) && Searched(inBlock, vtx, mods, {}, 0)
    {
      hide Tracked, Closed, Searched, Followed, KeysOk;
      NothingTracked(pool, inBlock);
      NothingBefore(pool, inBlock);
      mods, n := UpdatePackagesForAdded(inBlock, map[], {});
      TrackedKeysOk(pool, inBlock, mods, {});
      SearchStarts(inBlock, vtx, mods);
    }

    /** The next entry of mapTx, or one of the modified entries if there is none or that one compares
        better. */
    method Choose(mi: nat, mapModifiedTx: ModifiedSet) returns (iter: nat, fUsingModified: bool)
      requires mi <= |order| && (mi < |order| || mapModifiedTx != map[])
      requires mi < |order| ==> order[mi] !in mapModifiedTx
      ensures fUsingModified <==> iter in mapModifiedTx
      ensures !fUsingModified ==> mi < |order| && iter == order[mi]
    {
      var better: bool := *;
      if mi == |order| || (mapModifiedTx != map[] && better) {
        iter :| iter in mapModifiedTx.Keys;
        fUsingModified := true;
      } else {
        iter, fUsingModified := order[mi], false;
      }
    }

    /** Tries the package of an entry, and drops the record it came from when it is refused. */
    method Consider(iter: nat, fUsingModified: bool, package: Modified, mapModifiedTx: ModifiedSet,
                    failedTx: set<nat>, ghost at: nat)
      returns (outcome: Outcome, mods: ModifiedSet, failed: set<nat>, n: nat)
      requires BlockOk() && WithinLimits() && Tracked(pool, inBlock, inBlock, mapModifiedTx, failedTx)
      requires Searched(inBlock, vtx, mapModifiedTx, failedTx, at) && iter < |pool| && iter !in inBlock
      requires fUsingModified <==> iter in mapModifiedTx
      requires !fUsingModified ==> at < |order| && iter == order[at] && iter !in failedTx
      requires package == if fUsingModified then mapModifiedTx[iter] else Unmodified(pool, iter)
      modifies this
      ensures BlockOk() && WithinLimits() && Tracked(pool, inBlock, inBlock, mods, failed)
      ensures Searched(inBlock, vtx, mods, failed, if fUsingModified then at else at + 1)
      ensures outcome == Added ==>
                && old(vtx) < vtx && nBlockWeight < nBlockMaxWeight
                && |Outside(pool, inBlock)| < |Outside(pool, old(inBlock))|
                && inBlock == old(inBlock) + WithAncestors(pool, iter)
      ensures outcome == TooBig ==> !TestPackage(package.size, package.sigOps)
      ensures outcome != Added ==>
                && vtx == old(vtx) && inBlock == old(inBlock) && nBlockWeight == old(nBlockWeight)
                && |mods| == |mapModifiedTx| - (if fUsingModified then 1 else 0) && iter !in mods
                && mods.Keys <= mapModifiedTx.Keys
                && failed == if fUsingModified then failedTx + {iter} else failedTx
    {
      hide Tracked, Enough, Closed, ParentsFirst, Distinct, Searched, Followed, KeysOk, Refuses, Unmodified, Outside,
        RefusedLate, Includable;
      failed := failedTx;
      ghost var block, list := inBlock, vtx;
      outcome, mods, n := TryPackage(iter, package, mapModifiedTx, failedTx);
      if outcome == Added {
        TrackedKeysOk(pool, inBlock, mods, failedTx);
        ghost var added := WithAncestors(pool, iter) - block;
        assert inBlock == block + added;
        SearchAdds(block, added, list, vtx, mapModifiedTx, mods, failedTx, at);
      } else {
        if iter !in failedTx {
          RefusedNow(mapModifiedTx, failedTx, iter, package, outcome);
        }
        if fUsingModified {
          SearchDrops(inBlock, vtx, mapModifiedTx, failedTx, at, iter);
          DroppedTracked(pool, inBlock, mapModifiedTx, failedTx, iter);
          OneFewer(mods, iter);
          mods := mods - {iter};
          failed := failed + {iter};
        }
      }
      if !fUsingModified {
        SearchPasses(inBlock, vtx, mods, failed, at);
      }
    }

    lemma RefusedNow(mods: ModifiedSet, failed: set<nat>, i: nat, m: Modified, outcome: Outcome)
      requires BlockOk() && Tracked(pool, inBlock, inBlock, mods, failed) && i < |pool| && i !in inBlock && i !in failed
      requires m == (if i in mods then mods[i] else Unmodified(pool, i))
      requires outcome == TooBig ==> !TestPackage(m.size, m.sigOps)
      requires outcome == NotFinal ==> exists a <- WithAncestors(pool, i) - inBlock :: !Includable(a)
      requires outcome != Added
      ensures Refuses(inBlock, i)
    {
      hide Tracked, EntryOk, BlockOk, Unmodified;
      if outcome == TooBig {
        RecordRefuses(mods, failed, i, m);
      }
    }

    /** Adds the package of an entry if it fits and all of it may be included. */
    method TryPackage(iter: nat, package: Modified, mapModifiedTx: ModifiedSet, ghost failed: set<nat>)
      returns (outcome: Outcome, mods: ModifiedSet, n: nat)
      requires BlockOk() && WithinLimits() && Tracked(pool, inBlock, inBlock, mapModifiedTx, failed)
      requires iter < |pool| && iter !in inBlock
      requires package == if iter in mapModifiedTx then mapModifiedTx[iter] else Unmodified(pool, iter)
      modifies this
      ensures BlockOk() && WithinLimits() && Tracked(pool, inBlock, inBlock, mods, failed)
      ensures outcome == TooBig <==> !old(TestPackage(package.size, package.sigOps))
      ensures outcome == Added ==>
                && inBlock == old(inBlock) + WithAncestors(pool, iter) && nBlockWeight < nBlockMaxWeight
                && old(vtx) < vtx && |Outside(pool, inBlock)| < |Outside(pool, old(inBlock))|
      ensures outcome == Added ==>
              Followed(pool, inBlock, WithAncestors(pool, iter) - old(inBlock), mapModifiedTx, mods)
      ensures outcome == NotFinal ==> exists a <- WithAncestors(pool, iter) - inBlock :: !Includable(a)
      ensures outcome != Added ==>
              mods == mapModifiedTx && vtx == old(vtx) && inBlock == old(inBlock) && nBlockWeight == old(nBlockWeight)
      ensures outcome == TooBig ==> !TestPackage(package.size, package.sigOps)
    {
      hide Tracked, Enough, Closed, ParentsFirst, Distinct, Outside, Followed;
      mods, n := mapModifiedTx, 0;
      ChosenEnough(pool, inBlock, mapModifiedTx, failed, iter);
      if !TestPackage(package.size, package.sigOps) {
        return TooBig, mods, n;
      }
      var ancestors := OnlyUnconfirmed(Ancestors(pool, iter));
      ancestors := ancestors + {iter};
      assert ancestors == WithAncestors(pool, iter) - inBlock;
      InPool(pool, iter);
      var ok := TestPackageTransactions(ancestors);
      if !ok {
        return NotFinal, mods, n;
      }
      FewerOutside(pool, inBlock, ancestors, iter);
      mods, n := AddPackage(iter, ancestors, mapModifiedTx, failed, package);
      outcome := Added;
      assert old(inBlock) + ancestors == old(inBlock) + WithAncestors(pool, iter);
    }
  }

  datatype Outcome = TooBig | NotFinal | Added

  /** What a list without repetition holds after a part of it. */
  lemma Behind(s: seq<nat>, t: seq<nat>, i: nat)
    requires s < t && Distinct(t)
    ensures i in Members(t[|s|..|t|]) <==> i in Members(t) && i !in Members(s)
  {
    var more := t[|s|..|t|];
    assert t == s + more;
    if i in more {
      var k :| 0 <= k < |more| && more[k] == i;
      assert t[|s| + k] == i;
    }
  }

  lemma {:induction false} MembersCount(s: seq<nat>)
    requires Distinct(s)
    ensures |Members(s)| == |s|
  {
    if s == [] {
      assert Members(s) == {};
    } else {
      var n := |s| - 1;
      MembersCount(s[..n]);
      assert s == s[..n] + [s[n]];
      assert Members(s) == Members(s[..n]) + {s[n]};
      assert s[n] !in s[..n];
    }
  }

  lemma InPool(pool: Pool, i: nat)
    requires PoolOk(pool) && i < |pool|
    ensures forall a: nat :: a in WithAncestors(pool, i) ==> a < |pool|
  {
    forall a: nat | a in Ancestors(pool, i)
      ensures a < |pool|
    {
      assert Ancestors(pool, a) <= Ancestors(pool, i);
    }
  }

  /** The entries not in the block. */
  function Outside(pool: Pool, block: set<nat>): set<nat> {
    set i: nat | i < |pool| && i !in block
  }

  lemma FewerOutside(pool: Pool, block: set<nat>, package: set<nat>, i: nat)
    requires i in package && i < |pool| && i !in block
    ensures |Outside(pool, block + package)| < |Outside(pool, block)|
  {
    assert Outside(pool, block + package) <= Outside(pool, block) - {i};
    SmallerSet(Outside(pool, block + package), Outside(pool, block) - {i});
    assert i in Outside(pool, block);
  }

  lemma GrownByNothing(mods: ModifiedSet, all: set<nat>)
    ensures Grown(mods, mods, all - all)
  {
  }

  lemma GrownByOne(before: ModifiedSet, mods: ModifiedSet, all: set<nat>, todo: set<nat>, d: nat, m: Modified)
    requires Grown(before, mods, all - todo) && d in todo && todo <= all
    ensures Grown(before, mods[d := m], all - (todo - {d}))
  {
  }

  lemma FollowedNothing(pool: Pool, block: set<nat>, mods: ModifiedSet)
    ensures Followed(pool, block, {}, mods, mods)
  {
  }

  lemma FollowedOneMore(pool: Pool, block: set<nat>, added: set<nat>, todo: set<nat>, it: nat, first: ModifiedSet,
                        before: ModifiedSet, after: ModifiedSet)
    requires it in todo && todo <= added <= block && Followed(pool, block, added - todo, first, before)
    requires Grown(before, after, Descendants(pool, it) - added)
    ensures Followed(pool, block, added - (todo - {it}), first, after)
  {
    assert added - (todo - {it}) == (added - todo) + {it};
    forall i: nat | i < |pool| && i !in block
      ensures i in after <==> i in first || !(Ancestors(pool, i) !! (added - todo) + {it})
    {
      assert i in Descendants(pool, it) <==> it in Ancestors(pool, i);
    }
  }

  lemma FollowedErased(pool: Pool, block: set<nat>, added: set<nat>, first: ModifiedSet, before: ModifiedSet,
                       after: ModifiedSet)
    requires Followed(pool, block, added, before, after) && before.Keys == first.Keys - block
    ensures Followed(pool, block, added, first, after)
  {
    forall i: nat | i < |pool| && i !in block
      ensures i in before <==> i in first
    {
      assert i in before.Keys <==> i in first.Keys;
    }
  }

  lemma NothingBefore(pool: Pool, block: set<nat>)
    ensures Closed(pool, block - block)
  {
  }

  /** How many records the addition of an entry touches. */
  function Updates(pool: Pool, added: set<nat>): nat -> int {
    (it: nat) => |Descendants(pool, it) - added|
  }

  lemma AddOneMore(pool: Pool, added: set<nat>, todo: set<nat>, it: nat)
    requires it in todo && todo <= added && it < |pool|
    ensures Sum(added - (todo - {it}), |pool|, Updates(pool, added)) ==
            Sum(added - todo, |pool|, Updates(pool, added)) + |Descendants(pool, it) - added|
  {
    assert added - (todo - {it}) == (added - todo) + {it};
    SumUnion(added - todo, {it}, |pool|, Updates(pool, added));
    SumOne(it, |pool|, Updates(pool, added));
  }

  ghost predicate PartlyTracked(pool: Pool, block: set<nat>, counted: set<nat>, it: nat, todo: set<nat>,
                                mods: ModifiedSet, failed: set<nat>) {
    && KeysOk(pool, block, mods)
    && (forall i: nat | i < |pool| && i !in block ::
          EntryOk(pool, if i in todo then counted else counted + {it}, mods, failed, i))
  }

  /** What depends on a newly added transaction is not in the block yet. */
  lemma DescendantsOutside(pool: Pool, block: set<nat>, added: set<nat>, it: nat)
    requires it in added && added <= block && Closed(pool, block - added)
    ensures (Descendants(pool, it) - added) !! block
    ensures forall d: nat :: d in Descendants(pool, it) ==> d < |pool|
  {
  }

  lemma UpdateStarts(pool: Pool, block: set<nat>, counted: set<nat>, it: nat, todo: set<nat>, mods: ModifiedSet,
                     failed: set<nat>)
    requires PoolOk(pool) && Tracked(pool, block, counted, mods, failed) && it in block && it !in counted
    requires forall i: nat | i in Descendants(pool, it) && i !in block :: i in todo
    ensures PartlyTracked(pool, block, counted, it, todo, mods, failed)
  {
    forall i: nat | i < |pool| && i !in block && i !in todo
      ensures EntryOk(pool, counted + {it}, mods, failed, i)
    {
      OthersKeep(pool, counted, mods, failed, it, i);
    }
  }

  lemma UpdateKeeps(pool: Pool, block: set<nat>, counted: set<nat>, it: nat, todo: set<nat>, mods: ModifiedSet,
                    failed: set<nat>, d: nat)
    requires PoolOk(pool) && PartlyTracked(pool, block, counted, it, todo, mods, failed)
    requires d in todo && d in Descendants(pool, it) && d !in block && counted <= block && it !in counted
    ensures PartlyTracked(pool, block, counted, it, todo - {d}, mods[d := Discounted(pool, mods, it, d)], failed)
  {
    hide Enough, Exact, Discounted, Rest;
    DiscountKeeps(pool, counted, mods, failed, it, d);
  }

  lemma UpdateEnds(pool: Pool, block: set<nat>, counted: set<nat>, it: nat, todo: set<nat>, mods: ModifiedSet,
                   failed: set<nat>)
    requires PartlyTracked(pool, block, counted, it, todo, mods, failed) && todo == {}
    ensures Tracked(pool, block, counted + {it}, mods, failed)
  {
  }

  /** Erasing the records of a package leaves the others as they were. */
  lemma ErasedTracked(pool: Pool, block: set<nat>, bigger: set<nat>, mods: ModifiedSet, left: ModifiedSet,
                      failed: set<nat>)
    requires Tracked(pool, block, block, mods, failed) && block <= bigger
    requires left.Keys == mods.Keys - bigger && forall j <- left :: left[j] == mods[j]
    ensures Tracked(pool, bigger, block, left, failed)
  {
    forall i: nat | i < |pool| && i !in bigger
      ensures EntryOk(pool, block, left, failed, i)
    {
      assert EntryOk(pool, block, mods, failed, i);
      assert i in left <==> i in mods.Keys - bigger;
    }
  }

  lemma TrackedKeys(pool: Pool, block: set<nat>, mods: ModifiedSet, failed: set<nat>)
    requires Tracked(pool, block, block, mods, failed)
    ensures mods.Keys == mods.Keys - block && forall i <- mods :: i < |pool| && i !in block
  {
  }

  lemma TrackedKeysOk(pool: Pool, block: set<nat>, mods: ModifiedSet, failed: set<nat>)
    requires Tracked(pool, block, block, mods, failed)
    ensures KeysOk(pool, block, mods)
  {
  }

  lemma OneFewer(mods: ModifiedSet, i: nat)
    requires i in mods
    ensures |mods - {i}| == |mods| - 1
  {
    assert (mods - {i}).Keys == mods.Keys - {i} && i in mods.Keys;
  }

  lemma NotTwice(pool: Pool, s: seq<nat>, k: nat)
    requires Sorted(pool, s) && k < |s|
    ensures s[k] !in s[..k]
  {
  }

  /** Dropping a record marks its entry as failed, so nothing more is promised about it. */
  lemma DroppedTracked(pool: Pool, block: set<nat>, mods: ModifiedSet, failed: set<nat>, i: nat)
    requires Tracked(pool, block, block, mods, failed)
    ensures Tracked(pool, block, block, mods - {i}, failed + {i})
  {
    forall j: nat | j < |pool| && j !in block
      ensures EntryOk(pool, block, mods - {i}, failed + {i}, j)
    {
      assert EntryOk(pool, block, mods, failed, j);
    }
  }

  lemma NothingTracked(pool: Pool, block: set<nat>)
    ensures Tracked(pool, block, block - block, map[], {})
  {
    assert block - block == {};
  }

  lemma AncestorThere(pool: Pool, block: set<nat>, i: nat, sortedEntries: seq<nat>, k: nat, a: nat)
    requires PoolOk(pool) && Closed(pool, block) && Sorted(pool, sortedEntries) && k < |sortedEntries|
    requires forall j: nat :: j in sortedEntries <==> j in WithAncestors(pool, i) - block
    requires a in Ancestors(pool, sortedEntries[k])
    ensures a in block || a in sortedEntries[..k]
  {
    assert sortedEntries[k] in sortedEntries;
    assert Ancestors(pool, sortedEntries[k]) <= Ancestors(pool, i);
    if a !in block {
      SortedAncestors(pool, sortedEntries, k, a);
    }
  }
}
