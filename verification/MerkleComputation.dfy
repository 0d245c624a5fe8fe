/** The constant-space computation of the Merkle root with its test for mutated lists (consensus/merkle.cpp). */
module MerkleComputation {
  import opened Numbers
  import opened MerkleTree
  import opened MerkleBlock
  import opened MerkleRoot

  // --- Bits of the count --------------------------------------------------------------------

  function Shr(n: nat, k: nat): nat {
    if k == 0 then n else Shr(n / 2, k - 1)
  }

  predicate BitSet(n: nat, k: nat) {
    Shr(n, k) % 2 == 1
  }

  lemma {:induction false} ShrNext(n: nat, k: nat)
    ensures Shr(n, k + 1) == Shr(n, k) / 2
  {
    if k > 0 {
      ShrNext(n / 2, k - 1);
    }
  }

  /** No bit below k is set. */
  predicate Round(n: nat, k: nat) {
    k == 0 || (n % 2 == 0 && Round(n / 2, k - 1))
  }

  lemma {:induction false} RoundNext(n: nat, k: nat)
    ensures Round(n, k + 1) <==> Round(n, k) && !BitSet(n, k)
  {
    if k > 0 {
      RoundNext(n / 2, k - 1);
    }
  }

  lemma {:induction false} RoundIs(n: nat, k: nat)
    requires Round(n, k)
    ensures n == Shr(n, k) * Pow2(k) && Shr(n + Pow2(k), k) == Shr(n, k) + 1 && Round(n + Pow2(k), k)
  {
    if k > 0 {
      RoundIs(n / 2, k - 1);
      assert (n + Pow2(k)) / 2 == n / 2 + Pow2(k - 1);
    }
  }

  /** One more leaf: the bits up to the lowest set one change, those above stay. */
  lemma {:induction false} OneMore(n: nat, k: nat)
    requires n > 0
    ensures Round(n, k) ==> Shr(n, k) > 0 && Shr(n - 1, k) == Shr(n, k) - 1
    ensures !Round(n, k) ==> Shr(n - 1, k) == Shr(n, k)
  {
    if k > 0 {
      if n % 2 == 0 {
        OneMore(n / 2, k - 1);
        assert (n - 1) / 2 == n / 2 - 1;
      } else {
        assert (n - 1) / 2 == n / 2;
      }
    }
  }

  /** The levels of a tree are as wide as the count shifted, and one more if something is left over. */
  lemma {:induction false} WidthShr(n: nat, k: nat)
    ensures Width(n, k) == Shr(n, k) + if Round(n, k) then 0 else 1
  {
    if k > 0 {
      WidthShr(n, k - 1);
      ShrNext(n, k - 1);
      RoundNext(n, k - 1);
    }
  }

  lemma {:induction false} ShrBelow(n: nat, k: nat, bits: nat)
    requires n < Pow2(bits) && Shr(n, k) > 0
    ensures k < bits
    decreases bits
  {
    if bits == 0 {
      ShrZero(k);
    } else if k > 0 {
      ShrBelow(n / 2, k - 1, bits - 1);
    }
  }

  lemma {:induction false} ShrZero(k: nat)
    ensures Shr(0, k) == 0
  {
    if k > 0 {
      ShrZero(k - 1);
    }
  }

  // --- Levels -------------------------------------------------------------------------------

  function LevelOf(leaves: seq<Digest>, k: nat): (r: seq<Digest>)
    ensures |r| == Width(|leaves|, k)
  {
    if k == 0 then leaves else Paired(LevelOf(leaves, k - 1))
  }

  lemma {:induction false} ShrMono(m: nat, n: nat, k: nat)
    requires m <= n
    ensures Shr(m, k) <= Shr(n, k)
  {
    if k > 0 {
      ShrMono(m / 2, n / 2, k - 1);
    }
  }

  lemma LevelNode(leaves: seq<Digest>, k: nat, i: nat)
    requires 2 * i + 1 < |LevelOf(leaves, k)|
    ensures i < |LevelOf(leaves, k + 1)|
    ensures LevelOf(leaves, k + 1)[i] == Node(LevelOf(leaves, k)[2 * i], LevelOf(leaves, k)[2 * i + 1])
  {
  }

  // --- The loops ----------------------------------------------------------------------------

  /** For every set bit of the count the hash of the last complete subtree of that size. */
  ghost predicate InnerOk(leaves: seq<Digest>, count: nat, inner: seq<Digest>) {
    && count <= |leaves| && |inner| == 32
    && forall k: nat | k < 32 && BitSet(count, k) :: LastOf(leaves, count, k, inner[k])
  }

  ghost predicate LastOf(leaves: seq<Digest>, count: nat, k: nat, h: Digest) {
    0 < Shr(count, k) <= |LevelOf(leaves, k)| && LevelOf(leaves, k)[Shr(count, k) - 1] == h
  }

  /** Two complete subtrees next to each other that are equal. */
  ghost predicate Seen(leaves: seq<Digest>, count: nat, k: nat, i: nat) {
    2 * i + 2 <= Shr(count, k) && TwinAt(LevelOf(leaves, k), i)
  }

  ghost predicate AnySeen(leaves: seq<Digest>, count: nat) {
    exists k: nat, i: nat :: Seen(leaves, count, k, i)
  }

  lemma {:induction false} RoundLess(n: nat, k: nat, j: nat)
    requires Round(n, k) && j < k
    ensures Round(n, j) && !BitSet(n, j)
    decreases k
  {
    RoundNext(n, k - 1);
    if j < k - 1 {
      RoundLess(n, k - 1, j);
    }
  }

  /** The two last complete subtrees of a size that are equal, when there is an even number. */
  ghost predicate Fresh(leaves: seq<Digest>, count: nat, k: nat) {
    Shr(count, k) >= 2 && TwinAt(LevelOf(leaves, k), Shr(count, k) / 2 - 1)
  }

  ghost predicate AnyFresh(leaves: seq<Digest>, count: nat, level: nat) {
    exists k: nat :: k < level && Fresh(leaves, count, k)
  }

  /** What one more leaf completes. */
  lemma SeenNext(leaves: seq<Digest>, count: nat, level: nat)
    requires Round(count + 1, level) && BitSet(count + 1, level)
    ensures AnySeen(leaves, count + 1) <==> AnySeen(leaves, count) || AnyFresh(leaves, count + 1, level)
  {
    hide Shr, Round, LevelOf;
    var c := count + 1;
    if AnySeen(leaves, c) {
      var k: nat, i: nat :| Seen(leaves, c, k, i);
      SeenFresh(leaves, count, level, k, i);
    }
    if AnySeen(leaves, count) {
      var k: nat, i: nat :| Seen(leaves, count, k, i);
      ShrMono(count, c, k);
      assert Seen(leaves, c, k, i);
    }
    if AnyFresh(leaves, c, level) {
      var k: nat :| k < level && Fresh(leaves, c, k);
      RoundLess(c, level, k);
      assert Seen(leaves, c, k, Shr(c, k) / 2 - 1);
    }
  }

  lemma SeenFresh(leaves: seq<Digest>, count: nat, level: nat, k: nat, i: nat)
    requires Round(count + 1, level) && BitSet(count + 1, level) && Seen(leaves, count + 1, k, i)
    ensures AnySeen(leaves, count) || AnyFresh(leaves, count + 1, level)
  {
    hide Shr, Round, LevelOf;
    var c := count + 1;
    OneMore(c, k);
    if 2 * i + 2 <= Shr(count, k) {
      assert Seen(leaves, count, k, i);
    } else {
      assert Round(c, k) && Shr(c, k) == 2 * i + 2;
      if k > level {
        RoundLess(c, k, level);
      }
      assert k < level && Fresh(leaves, c, k);
    }
  }

  lemma InnerNext(leaves: seq<Digest>, count: nat, inner: seq<Digest>, level: nat, h: Digest)
    requires InnerOk(leaves, count, inner) && count < |leaves| && level < 32
    requires Round(count + 1, level) && BitSet(count + 1, level) && LastOf(leaves, count + 1, level, h)
    ensures InnerOk(leaves, count + 1, inner[level := h])
  {
    hide Shr, Round, LevelOf;
    var c := count + 1;
    forall k: nat | k < 32 && BitSet(c, k)
      ensures LastOf(leaves, c, k, inner[level := h][k])
    {
      OneMore(c, k);
      if k < level {
        RoundLess(c, level, k);
      } else if k > level && Round(c, k) {
        RoundLess(c, k, level);
      }
    }
  }

  /** The hash of the two last subtrees of a size. */
  lemma Combined(leaves: seq<Digest>, count: nat, inner: seq<Digest>, level: nat, h: Digest)
    requires InnerOk(leaves, count, inner) && count < |leaves| && level < 32
    requires Round(count + 1, level) && !BitSet(count + 1, level) && LastOf(leaves, count + 1, level, h)
    ensures Round(count + 1, level + 1) && LastOf(leaves, count + 1, level + 1, Node(inner[level], h))
    ensures Shr(count + 1, level + 1) < Shr(count + 1, level)
    ensures inner[level] == h <==> Fresh(leaves, count + 1, level)
  {
    hide Shr, Round, LevelOf;
    var c := count + 1;
    OneMore(c, level);
    ShrNext(c, level);
    RoundNext(c, level);
    assert LastOf(leaves, count, level, inner[level]);
    LevelNode(leaves, level, Shr(c, level) / 2 - 1);
  }

  /** One more leaf, with all the hashes it completes. */
  method PushLeaf(leaves: seq<Digest>, inner: array<Digest>, count: nat, was: bool) returns (mutated: bool)
    requires inner.Length == 32 && InnerOk(leaves, count, inner[..]) && count < |leaves| <= Pow2(31)
    requires was <==> AnySeen(leaves, count)
    modifies inner
    ensures InnerOk(leaves, count + 1, inner[..])
    ensures mutated <==> AnySeen(leaves, count + 1)
  {
    hide Shr, Round, LevelOf, BitSet, InnerOk, LastOf, AnySeen, Fresh, Pow2;
    var h, level: nat := leaves[count], 0;
    ghost var before := inner[..];
    mutated := was;
    Pow2Mono(31, 32);
    FirstLevel(leaves, count + 1);
    while !BitSet(count + 1, level)
      invariant Round(count + 1, level) && LastOf(leaves, count + 1, level, h) && inner[..] == before
      invariant level < 32
      invariant mutated <==> AnySeen(leaves, count) || AnyFresh(leaves, count + 1, level)
      decreases Shr(count + 1, level)
    {
      Combined(leaves, count, inner[..], level, h);
      LevelBelow(leaves, count + 1, level + 1, Node(inner[level], h));
      FreshNext(leaves, count + 1, level);
      mutated := mutated || inner[level] == h;
      h := Node(inner[level], h);
      level := level + 1;
    }
    SeenNext(leaves, count, level);
    InnerNext(leaves, count, before, level, h);
    inner[level] := h;
    assert inner[..] == before[level := h];
  }

  lemma FirstLevel(leaves: seq<Digest>, count: nat)
    requires 0 < count <= |leaves|
    ensures Round(count, 0) && LastOf(leaves, count, 0, leaves[count - 1]) && !AnyFresh(leaves, count, 0)
  {
  }

  lemma LevelBelow(leaves: seq<Digest>, count: nat, level: nat, h: Digest)
    requires LastOf(leaves, count, level, h) && count < Pow2(32)
    ensures level < 32
  {
    ShrBelow(count, level, 32);
  }

  lemma FreshNext(leaves: seq<Digest>, count: nat, level: nat)
    ensures AnyFresh(leaves, count, level + 1) <==> AnyFresh(leaves, count, level) || Fresh(leaves, count, level)
  {
    hide Fresh;
  }

  // --- The final sweep ----------------------------------------------------------------------

  /** Where the sweep stands: the count is that of the level filled up, and `h` its last hash. */
  ghost predicate Swept(leaves: seq<Digest>, count: nat, level: nat, h: Digest) {
    && Round(count, level) && LastOf(leaves, count, level, h) && Shr(count, level) == |LevelOf(leaves, level)|
    && forall j: nat | j < level :: |LevelOf(leaves, j)| > 1
  }

  lemma SweepStarts(leaves: seq<Digest>, inner: seq<Digest>, level: nat)
    requires leaves != [] && |leaves| < Pow2(32) && InnerOk(leaves, |leaves|, inner)
    requires Round(|leaves|, level) && BitSet(|leaves|, level)
    ensures level < 32 && Swept(leaves, |leaves|, level, inner[level]) && !Round(|leaves|, level + 1)
  {
    hide Shr, Round, LevelOf, Width;
    var n := |leaves|;
    ShrBelow(n, level, 32);
    RoundNext(n, level);
    WidthShr(n, level);
    forall j: nat | j < level
      ensures |LevelOf(leaves, j)| > 1
    {
      RoundLess(n, level, j);
      OneMore(n, j);
      WidthShr(n, j);
    }
  }

  /** The last node of an odd level is hashed with itself, as if it were there twice. */
  lemma SweepOdd(leaves: seq<Digest>, count: nat, level: nat, h: Digest)
    requires Swept(leaves, count, level, h) && BitSet(count, level) && count != Pow2(level)
    requires !Round(|leaves|, level + 1)
    ensures Swept(leaves, count + Pow2(level), level + 1, Node(h, h))
    ensures Shr(count + Pow2(level), level + 1) < Shr(count, level)
  {
    hide Shr, Round, LevelOf;
    RoundIs(count, level);
    ShrNext(count + Pow2(level), level);
    RoundNext(count + Pow2(level), level);
    assert Shr(count, level) > 1;
    LevelOdd(leaves, level);
  }

  lemma LevelOdd(leaves: seq<Digest>, k: nat)
    requires |LevelOf(leaves, k)| % 2 == 1
    ensures var l, next := LevelOf(leaves, k), LevelOf(leaves, k + 1);
            |next| == (|l| + 1) / 2 && next[|next| - 1] == Node(l[|l| - 1], l[|l| - 1])
  {
  }

  lemma LevelEven(leaves: seq<Digest>, k: nat)
    requires |LevelOf(leaves, k)| % 2 == 0 && |LevelOf(leaves, k)| > 0
    ensures var l, next := LevelOf(leaves, k), LevelOf(leaves, k + 1);
            |next| == |l| / 2 && next[|next| - 1] == Node(l[|l| - 2], l[|l| - 1])
  {
    PairedEven(LevelOf(leaves, k));
  }

  lemma PairedEven(level: seq<Digest>)
    requires |level| % 2 == 0 && level != []
    ensures |Paired(level)| == |level| / 2
    ensures Paired(level)[|Paired(level)| - 1] == Node(level[|level| - 2], level[|level| - 1])
  {
    var i := |level| / 2 - 1;
    assert |level| == 2 * i + 2;
  }

  /** The last node of an even level is hashed with the subtree before it. */
  lemma SweepEven(leaves: seq<Digest>, count: nat, inner: seq<Digest>, level: nat, h: Digest)
    requires Swept(leaves, count, level, h) && !BitSet(count, level) && !Round(|leaves|, level)
    requires InnerOk(leaves, |leaves|, inner) && |leaves| < Pow2(32)
    ensures level < 32 && Swept(leaves, count, level + 1, Node(inner[level], h)) && !Round(|leaves|, level + 1)
    ensures Shr(count, level + 1) < Shr(count, level)
  {
    hide Shr, Round, LevelOf, Width;
    var n := |leaves|;
    WidthShr(n, level);
    ShrBelow(n, level, 32);
    assert LastOf(leaves, n, level, inner[level]);
    ShrNext(count, level);
    RoundNext(count, level);
    RoundNext(n, level);
    LevelEven(leaves, level);
  }

  /** The one node of the first level that has only one is the root. */
  lemma {:induction false} LevelRoot(leaves: seq<Digest>, k: nat)
    requires leaves != [] && forall j: nat | j < k :: |LevelOf(leaves, j)| > 1
    ensures |LevelOf(leaves, k)| > 0 && Root(LevelOf(leaves, k)) == Root(leaves)
  {
    hide Root;
    WidthPositive(|leaves|, k);
    if k > 0 {
      LevelRoot(leaves, k - 1);
      RootIs(LevelOf(leaves, k - 1));
    }
  }

  lemma SweepEnds(leaves: seq<Digest>, level: nat, h: Digest)
    requires leaves != [] && Swept(leaves, Pow2(level), level, h)
    ensures h == Root(leaves)
  {
    hide Shr, Round, LevelOf, Root;
    RoundIs(Pow2(level), level);
    MulOne(Shr(Pow2(level), level), Pow2(level));
    LevelRoot(leaves, level);
    RootIs(LevelOf(leaves, level));
  }

  lemma MulOne(x: nat, p: nat)
    requires p > 0 && p == x * p
    ensures x == 1
  {
    if x > 1 {
      MulMono(2, x, p);
    }
  }

  /** So the count stays within 32 bits. */
  lemma CountFits(leaves: seq<Digest>, count: nat, level: nat, h: Digest)
    requires Swept(leaves, count, level, h) && 0 < |leaves| <= Pow2(31)
    ensures count <= Pow2(31)
  {
    hide Shr, Round, LevelOf, Width, Pow2;
    var n := |leaves|;
    RoundIs(count, level);
    WidthBounds(n, level);
    if level > 31 {
      WidthBounds(n, 31);
      assert |LevelOf(leaves, 31)| > 1;
      MulMono(2, Width(n, 31), Pow2(31));
    } else {
      RoundedUp(n, Width(n, level), level);
    }
  }

  lemma RoundedUp(n: nat, w: nat, level: nat)
    requires n <= Pow2(31) && level <= 31 && w * Pow2(level) < n + Pow2(level)
    ensures w * Pow2(level) <= Pow2(31)
  {
    hide Pow2;
    var p, most := Pow2(level), Pow2(31 - level);
    Pow2Add(31 - level, level);
    MulNext(most, p);
    QuotientBelow(w * p, w, p, most + 1);
    MulMono(w, most, p);
  }

  lemma MulNext(x: int, p: int)
    ensures (x + 1) * p == x * p + p
  {
  }

  /** Fills up the odd levels from the lowest set bit of the count on. */
  method Sweep(leaves: seq<Digest>, inner: array<Digest>) returns (root: Digest)
    requires 0 < |leaves| <= Pow2(31) && inner.Length == 32 && InnerOk(leaves, |leaves|, inner[..])
    ensures root == Root(leaves)
  {
    hide Shr, Round, LevelOf, BitSet, InnerOk, LastOf, Pow2, Root, Swept;
    Pow2Mono(31, 32);
    var count: nat, level: nat := |leaves|, 0;
    FirstLevel(leaves, count);
    while !BitSet(count, level)
      invariant Round(count, level)
      decreases Shr(count, level)
    {
      OneMore(count, level);
      ShrNext(count, level);
      RoundNext(count, level);
      level := level + 1;
    }
    SweepStarts(leaves, inner[..], level);
    var h := inner[level];
    while count != Pow2(level)
      invariant Swept(leaves, count, level, h) && BitSet(count, level) && !Round(|leaves|, level + 1)
      invariant count <= Pow2(31)
      decreases Shr(count, level)
    {
      SweepOdd(leaves, count, level, h);
      h := Node(h, h);
      count := count + Pow2(level);
      level := level + 1;
      while !BitSet(count, level)
        invariant Swept(leaves, count, level, h) && !Round(|leaves|, level)
        decreases Shr(count, level)
      {
        SweepEven(leaves, count, inner[..], level, h);
        h := Node(inner[level], h);
        level := level + 1;
      }
      RoundNext(|leaves|, level);
      CountFits(leaves, count, level, h);
    }
    SweepEnds(leaves, level, h);
    root := h;
  }

  // --- Mutated lists ------------------------------------------------------------------------

  /** A complete subtree that equals the last, incomplete one of its size has equal halves somewhere. */
  lemma {:induction false} IncompleteTwin(leaves: seq<Digest>, k: nat, p: nat)
    requires !Round(|leaves|, k) && p < Shr(|leaves|, k) && Shr(|leaves|, k) + 1 == |LevelOf(leaves, k)|
    requires LevelOf(leaves, k)[p] == LevelOf(leaves, k)[Shr(|leaves|, k)]
    ensures AnySeen(leaves, |leaves|)
    decreases k
  {
    hide Shr, Round, Width, Paired, AnySeen;
    var n, q := |leaves|, Shr(|leaves|, k);
    LevelBelowOdd(n, k);
    var l := LevelOf(leaves, k - 1);
    PairedAt(l, p);
    PairedAt(l, q);
    if |l| == 2 * q + 1 {
      SeenHere(leaves, n, k - 1, p);
    } else {
      IncompleteTwin(leaves, k - 1, 2 * p + 1);
    }
  }

  lemma SeenHere(leaves: seq<Digest>, count: nat, k: nat, i: nat)
    requires Seen(leaves, count, k, i)
    ensures AnySeen(leaves, count)
  {
  }

  /** Below a node that is incomplete there is one complete node and nothing, one incomplete node and nothing, or
      a complete and an incomplete one. */
  lemma LevelBelowOdd(n: nat, k: nat)
    requires !Round(n, k)
    ensures k > 0
    ensures var q, s, w := Shr(n, k), Shr(n, k - 1), Width(n, k - 1);
            2 * q <= s <= 2 * q + 1 && (w == 2 * q + 1 || (w == 2 * q + 2 && s == 2 * q + 1 && !Round(n, k - 1)))
  {
    hide Shr, Width;
    assert k > 0;
    ShrNext(n, k - 1);
    RoundNext(n, k - 1);
    WidthShr(n, k - 1);
  }

  lemma PairedAt(level: seq<Digest>, i: nat)
    requires 2 * i < |level|
    ensures i < |Paired(level)|
    ensures Paired(level)[i] == Node(level[2 * i], level[if 2 * i + 1 < |level| then 2 * i + 1 else 2 * i])
  {
    if 2 * i + 1 == |level| {
      assert |level| % 2 == 1 && i == |Paired(level)| - 1;
    }
  }

  /** Equal neighbours on any level, complete or not, mean that some complete ones are equal. */
  lemma TwinsSeen(leaves: seq<Digest>, k: nat, i: nat)
    requires TwinAt(LevelOf(leaves, k), i)
    ensures AnySeen(leaves, |leaves|)
  {
    hide Shr, Round, LevelOf, Width;
    var n := |leaves|;
    WidthShr(n, k);
    if 2 * i + 2 <= Shr(n, k) {
      assert Seen(leaves, n, k, i);
    } else {
      IncompleteTwin(leaves, k, 2 * i);
    }
  }

  ghost predicate TwinOn(leaves: seq<Digest>, k: nat, i: nat) {
    TwinAt(LevelOf(leaves, k), i)
  }

  /** Mutated from a level on. */
  lemma {:induction false} MutatedFrom(leaves: seq<Digest>, k: nat)
    requires leaves != []
    ensures Mutated(LevelOf(leaves, k)) <==> exists j: nat, i: nat :: j >= k && TwinOn(leaves, j, i)
    decreases |LevelOf(leaves, k)|
  {
    hide Width, TwinAt, Paired;
    var l := LevelOf(leaves, k);
    WidthPositive(|leaves|, k);
    if |l| > 1 {
      assert LevelOf(leaves, k + 1) == Paired(l);
      NextShorter(|leaves|, k);
      MutatedFrom(leaves, k + 1);
      if Twins(l) {
        var i: nat :| TwinAt(l, i);
        assert TwinOn(leaves, k, i);
      }
    } else {
      forall j: nat, i: nat | j >= k
        ensures !TwinOn(leaves, j, i)
      {
        StaysOne(leaves, k, j);
        NoTwin(LevelOf(leaves, j), i);
      }
    }
  }

  lemma NextShorter(n: nat, k: nat)
    requires Width(n, k) > 1
    ensures Width(n, k + 1) < Width(n, k)
  {
  }

  lemma {:induction false} StaysOne(leaves: seq<Digest>, k: nat, j: nat)
    requires |LevelOf(leaves, k)| <= 1 && j >= k
    ensures |LevelOf(leaves, j)| <= 1
    decreases j
  {
    if j > k {
      StaysOne(leaves, k, j - 1);
    }
  }

  lemma NoTwin(level: seq<Digest>, i: nat)
    requires |level| <= 1
    ensures !TwinAt(level, i)
  {
  }

  /** The computation sees exactly the lists that are mutated on some level. */
  lemma MutatedIff(leaves: seq<Digest>)
    requires leaves != []
    ensures Mutated(leaves) <==> AnySeen(leaves, |leaves|)
  {
    hide Shr, TwinAt, Mutated;
    MutatedFrom(leaves, 0);
    if AnySeen(leaves, |leaves|) {
      var k: nat, i: nat :| Seen(leaves, |leaves|, k, i);
      assert k >= 0 && TwinOn(leaves, k, i);
    }
    if Mutated(leaves) {
      var j: nat, i: nat :| j >= 0 && TwinOn(leaves, j, i);
      TwinsSeen(leaves, j, i);
    }
  }

  /** The root of the list, zero for none, and whether it is mutated. The count has 32 bits. */
  method ComputeMerkleRoot(leaves: seq<Digest>) returns (root: Digest, mutated: bool)
    requires |leaves| <= Pow2(31)
    ensures leaves == [] ==> root == ZERO && !mutated
    ensures leaves != [] ==> root == Root(leaves) && (mutated <==> Mutated(leaves))
  {
    hide Shr, LevelOf, InnerOk, AnySeen, Mutated, Root, Pow2;
    mutated := false;
    if leaves == [] {
      return ZERO, false;
    }
    var inner := new Digest[32](_ => ZERO);
    NothingYet(leaves, inner[..]);
    for count := 0 to |leaves|
      invariant InnerOk(leaves, count, inner[..])
      invariant mutated <==> AnySeen(leaves, count)
    {
      mutated := PushLeaf(leaves, inner, count, mutated);
    }
    MutatedIff(leaves);
    root := Sweep(leaves, inner);
  }

  lemma NothingYet(leaves: seq<Digest>, inner: seq<Digest>)
    requires |inner| == 32
    ensures InnerOk(leaves, 0, inner) && !AnySeen(leaves, 0)
  {
    hide LevelOf;
    forall k: nat
      ensures Shr(0, k) == 0
    {
      ShrZero(k);
    }
  }
}
