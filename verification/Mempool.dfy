/** The part of the mempool that block assembly reads: transactions and their in-pool ancestors. */
module Mempool {
  const WITNESS_SCALE_FACTOR := 4

  datatype Entry = Entry(
    size: nat,
    weight: nat,
    sigOps: nat,
    fee: int,
    modifiedFee: int,
    isFinal: bool,
    hasWitness: bool,
    ancestors: set<nat>)

  /** Entries are named by their index. */
  type Pool = seq<Entry>

  datatype Field = Size | Weight | SigOps | Fee | ModifiedFee

  function Of(pool: Pool, f: Field): nat -> int {
    (i: nat) =>
      if i >= |pool| then 0
      else match f
           case Size => pool[i].size
           case Weight => pool[i].weight
           case SigOps => pool[i].sigOps
           case Fee => pool[i].fee
           case ModifiedFee => pool[i].modifiedFee
  }

  /** All in-pool ancestors of an entry, the entry itself not included. */
  function Ancestors(pool: Pool, i: nat): set<nat> {
    if i < |pool| then pool[i].ancestors else {}
  }

  /** The entries that depend on an entry. */
  function Descendants(pool: Pool, i: nat): set<nat> {
    set d: nat | d < |pool| && i in Ancestors(pool, d)
  }

  /** Ancestor sets are transitively closed and acyclic; weight is at most four times virtual size. */
  ghost predicate PoolOk(pool: Pool) {
    && (forall i: nat, a: nat | a in Ancestors(pool, i) ::
        a < |pool| && a != i && Ancestors(pool, a) <= Ancestors(pool, i))
    && (forall i | 0 <= i < |pool| :: pool[i].weight <= WITNESS_SCALE_FACTOR * pool[i].size)
  }

  // --- Sums over sets of entries ------------------------------------------------------------

  function Sum(ids: set<nat>, n: nat, f: nat -> int): int {
    if n == 0 then 0 else Sum(ids, n - 1, f) + if n - 1 in ids then f(n - 1) else 0
  }

  function Total(pool: Pool, ids: set<nat>, f: Field): int {
    Sum(ids, |pool|, Of(pool, f))
  }

  /** Two disjoint sets add up. */
  lemma {:induction false} SumUnion(a: set<nat>, b: set<nat>, n: nat, f: nat -> int)
    requires a !! b
    ensures Sum(a + b, n, f) == Sum(a, n, f) + Sum(b, n, f)
  {
    if n > 0 {
      SumUnion(a, b, n - 1, f);
    }
  }

  lemma {:induction false} SumOne(i: nat, n: nat, f: nat -> int)
    ensures Sum({i}, n, f) == if i < n then f(i) else 0
  {
    if n > 0 {
      SumOne(i, n - 1, f);
    }
  }

  lemma {:induction false} SumNone(n: nat, f: nat -> int)
    ensures Sum({}, n, f) == 0
  {
    if n > 0 {
      SumNone(n - 1, f);
    }
  }

  lemma {:induction false} SumSame(ids: set<nat>, n: nat, f: nat -> int, g: nat -> int)
    requires forall i <- ids :: f(i) == g(i)
    ensures Sum(ids, n, f) == Sum(ids, n, g)
  {
    if n > 0 {
      SumSame(ids, n - 1, f, g);
    }
  }

  lemma {:induction false} SumAtMost(ids: set<nat>, n: nat, f: nat -> int, g: nat -> int, k: nat)
    requires forall i: nat :: i < n ==> f(i) <= k * g(i)
    ensures Sum(ids, n, f) <= k * Sum(ids, n, g)
  {
    if n > 0 {
      SumAtMost(ids, n - 1, f, g, k);
      var rest, last := Sum(ids, n - 1, g), if n - 1 in ids then g(n - 1) else 0;
      assert k * (rest + last) == k * rest + k * last;
    }
  }

  lemma TotalAdd(pool: Pool, ids: set<nat>, i: nat, f: Field)
    requires i !in ids && i < |pool|
    ensures Total(pool, ids + {i}, f) == Total(pool, ids, f) + Of(pool, f)(i)
  {
    SumUnion(ids, {i}, |pool|, Of(pool, f));
    SumOne(i, |pool|, Of(pool, f));
  }

  lemma TotalRemove(pool: Pool, ids: set<nat>, i: nat, f: Field)
    requires i in ids && i < |pool|
    ensures Total(pool, ids - {i}, f) == Total(pool, ids, f) - Of(pool, f)(i)
  {
    TotalAdd(pool, ids - {i}, i, f);
    assert ids - {i} + {i} == ids;
  }

  lemma TotalUnion(pool: Pool, a: set<nat>, b: set<nat>, f: Field)
    requires a !! b
    ensures Total(pool, a + b, f) == Total(pool, a, f) + Total(pool, b, f)
  {
    SumUnion(a, b, |pool|, Of(pool, f));
  }

  lemma {:induction false} SumNonNegative(ids: set<nat>, n: nat, f: nat -> int)
    requires forall i: nat :: i < n ==> f(i) >= 0
    ensures Sum(ids, n, f) >= 0
  {
    if n > 0 {
      SumNonNegative(ids, n - 1, f);
    }
  }

  lemma TotalMono(pool: Pool, a: set<nat>, b: set<nat>, f: Field)
    requires a <= b && f != Fee && f != ModifiedFee
    ensures 0 <= Total(pool, a, f) <= Total(pool, b, f)
  {
    SumNonNegative(a, |pool|, Of(pool, f));
    SumNonNegative(b - a, |pool|, Of(pool, f));
    TotalUnion(pool, a, b - a, f);
    assert a + (b - a) == b;
  }

  lemma TotalWeight(pool: Pool, ids: set<nat>)
    requires PoolOk(pool)
    ensures Total(pool, ids, Weight) <= WITNESS_SCALE_FACTOR * Total(pool, ids, Size)
  {
    SumAtMost(ids, |pool|, Of(pool, Weight), Of(pool, Size), WITNESS_SCALE_FACTOR);
  }

  // --- Packages -----------------------------------------------------------------------------

  /** An entry with its ancestors. */
  function WithAncestors(pool: Pool, i: nat): set<nat> {
    Ancestors(pool, i) + {i}
  }

  /** What is still to be paid for an entry when `included` are already in the block. */
  function Rest(pool: Pool, included: set<nat>, i: nat, f: Field): int {
    Total(pool, WithAncestors(pool, i) - included, f)
  }

  lemma RestOfNone(pool: Pool, included: set<nat>, i: nat, f: Field)
    requires Ancestors(pool, i) !! included && i !in included
    ensures Rest(pool, included, i, f) == Total(pool, WithAncestors(pool, i), f)
  {
    assert WithAncestors(pool, i) - included == WithAncestors(pool, i);
  }

  lemma RestAtMostAll(pool: Pool, included: set<nat>, i: nat, f: Field)
    requires f != Fee && f != ModifiedFee
    ensures 0 <= Rest(pool, included, i, f) <= Total(pool, WithAncestors(pool, i), f)
  {
    TotalMono(pool, WithAncestors(pool, i) - included, WithAncestors(pool, i), f);
  }

  lemma RestStep(pool: Pool, included: set<nat>, it: nat, i: nat, f: Field)
    requires PoolOk(pool) && it !in included && i != it
    ensures Rest(pool, included + {it}, i, f) ==
            Rest(pool, included, i, f) - if it in Ancestors(pool, i) then Of(pool, f)(it) else 0
  {
    var before := WithAncestors(pool, i) - included;
    if it in Ancestors(pool, i) {
      assert Ancestors(pool, it) <= Ancestors(pool, i);
      TotalRemove(pool, before, it, f);
      assert WithAncestors(pool, i) - (included + {it}) == before - {it};
    } else {
      assert WithAncestors(pool, i) - (included + {it}) == before;
    }
  }

  /** An ancestor has fewer ancestors. */
  lemma FewerAncestors(pool: Pool, a: nat, i: nat)
    requires PoolOk(pool) && a in Ancestors(pool, i)
    ensures |Ancestors(pool, a)| < |Ancestors(pool, i)|
  {
    assert a !in Ancestors(pool, a);
    SmallerSet(Ancestors(pool, a), Ancestors(pool, i) - {a});
  }

  lemma {:induction false} SmallerSet(a: set<nat>, b: set<nat>)
    requires a <= b
    ensures |a| <= |b|
    decreases |a|
  {
    if x: nat :| x in a {
      SmallerSet(a - {x}, b - {x});
    } else {
      assert a == {};
    }
  }
}
