/** The Merkle root level by level, and which lists of transactions share one (merkleblock.cpp and
    consensus/merkle.cpp). */
module MerkleRoot {
  import opened MerkleTree
  import opened MerkleBlock

  // --- Level by level -----------------------------------------------------------------------

  /** The next level: neighbours are hashed together, and the last of an odd number with itself. */
  function Paired(level: seq<Digest>): (r: seq<Digest>)
    ensures |r| == (|level| + 1) / 2
    ensures forall i: nat | 2 * i + 1 < |level| :: r[i] == Node(level[2 * i], level[2 * i + 1])
    ensures |level| % 2 == 1 ==> r[|r| - 1] == Node(level[|level| - 1], level[|level| - 1])
  {
    seq((|level| + 1) / 2, i requires 0 <= i < (|level| + 1) / 2 =>
      Node(level[2 * i], if 2 * i + 1 < |level| then level[2 * i + 1] else level[2 * i]))
  }

  lemma {:induction false} PairedWidth(n: nat, height: nat)
    ensures Width(n, height + 1) == Width((n + 1) / 2, height)
  {
    if height > 0 {
      PairedWidth(n, height - 1);
    }
  }

  /** The tree over a list is the tree over its next level, one higher. */
  lemma {:induction false} PairedHash(txids: seq<Digest>, height: nat, pos: nat)
    requires pos < Width(|txids|, height + 1) == Width(|Paired(txids)|, height)
    ensures Hash(Shape(|txids|, height + 1, pos), txids) == Hash(Shape(|Paired(txids)|, height, pos), Paired(txids))
    decreases height
  {
    var n, m := |txids|, |Paired(txids)|;
    PairedWidth(n, height);
    if height == 0 {
      assert Shape(n, 0, pos * 2) == Leaf(pos * 2);
      if pos * 2 + 1 < n {
        assert Shape(n, 0, pos * 2 + 1) == Leaf(pos * 2 + 1);
      } else {
        assert n % 2 == 1 && pos == m - 1;
      }
    } else {
      PairedWidth(n, height - 1);
      PairedHash(txids, height - 1, pos * 2);
      if pos * 2 + 1 < Width(n, height) {
        PairedHash(txids, height - 1, pos * 2 + 1);
      }
    }
  }

  lemma PairedHeight(n: nat)
    requires n > 1
    ensures Height(n) == Height((n + 1) / 2) + 1
  {
    var h, k := Height(n), Height((n + 1) / 2);
    assert h > 0;
    PairedWidth(n, h - 1);
    PairedWidth(n, k);
  }

  /** The root of one is itself; the root of more is the root of the next level. */
  lemma RootIs(txids: seq<Digest>)
    requires txids != []
    ensures Root(txids) == if |txids| == 1 then txids[0] else Root(Paired(txids))
  {
    if |txids| == 1 {
      assert Whole(1) == Leaf(0);
    } else {
      PairedHeight(|txids|);
      PairedWidth(|txids|, Height(|txids|) - 1);
      PairedHash(txids, Height(|txids|) - 1, 0);
    }
  }

  /** An odd list and the same list with its last transaction twice have the same root. */
  lemma LastTwice(txids: seq<Digest>)
    requires |txids| % 2 == 1 && |txids| >= 3
    ensures Root(txids) == Root(txids + [txids[|txids| - 1]])
  {
    var more := txids + [txids[|txids| - 1]];
    RootIs(txids);
    RootIs(more);
    assert Paired(more) == Paired(txids);
  }

  // --- Which lists share a root -------------------------------------------------------------

  /** Two different nodes of a level that are hashed together are equal. */
  ghost predicate Twins(level: seq<Digest>) {
    exists i: nat :: TwinAt(level, i)
  }

  ghost predicate TwinAt(level: seq<Digest>, i: nat) {
    2 * i + 1 < |level| && level[2 * i] == level[2 * i + 1]
  }

  /** On some level. */
  ghost predicate Mutated(level: seq<Digest>)
    decreases |level|
  {
    |level| > 1 && (Twins(level) || Mutated(Paired(level)))
  }

  /** A full tree of this depth over txids, which are no hashes of two others. */
  predicate Deep(d: Digest, k: nat) {
    if k == 0 then d.Atom? else d.Node? && Deep(d.left, k - 1) && Deep(d.right, k - 1)
  }

  lemma {:induction false} OneDepth(d: Digest, j: nat, k: nat)
    requires Deep(d, j) && Deep(d, k)
    ensures j == k
  {
    if j > 0 && k > 0 {
      OneDepth(d.left, j - 1, k - 1);
    }
  }

  lemma PairedDeep(level: seq<Digest>, k: nat)
    requires forall i | 0 <= i < |level| :: Deep(level[i], k)
    ensures forall i | 0 <= i < |Paired(level)| :: Deep(Paired(level)[i], k + 1)
  {
    forall i | 0 <= i < |Paired(level)|
      ensures Deep(Paired(level)[i], k + 1)
    {
      assert Deep(level[2 * i], k);
    }
  }

  lemma {:induction false} RootDeep(level: seq<Digest>, k: nat)
    requires level != [] && forall i | 0 <= i < |level| :: Deep(level[i], k)
    ensures Deep(Root(level), k + Height(|level|))
    decreases |level|
  {
    hide Root, Paired;
    RootIs(level);
    if |level| > 1 {
      PairedDeep(level, k);
      PairedHeight(|level|);
      RootDeep(Paired(level), k + 1);
    }
  }

  /** Without twins a level is determined by the next one. */
  lemma PairedInjective(a: seq<Digest>, b: seq<Digest>)
    requires Paired(a) == Paired(b) && !Twins(a) && !Twins(b) && a != []
    ensures a == b
  {
    var n := |Paired(a)|;
    SameLength(a, b);
    SameLength(b, a);
    forall i: nat | i < |a|
      ensures a[i] == b[i]
    {
      assert Paired(a)[i / 2] == Paired(b)[i / 2];
    }
  }

  lemma SameLength(a: seq<Digest>, b: seq<Digest>)
    requires Paired(a) == Paired(b) && !Twins(b) && a != []
    ensures |b| <= |a|
  {
    var n := |Paired(a)|;
    if |a| < |b| {
      assert |a| == 2 * n - 1 && |b| == 2 * n;
      assert Paired(a)[n - 1] == Node(a[2 * n - 2], a[2 * n - 2]);
      assert Paired(b)[n - 1] == Node(b[2 * (n - 1)], b[2 * (n - 1) + 1]);
      assert TwinAt(b, n - 1);
    }
  }

  lemma {:induction false} SameRoot(a: seq<Digest>, b: seq<Digest>, k: nat)
    requires a != [] && b != [] && !Mutated(a) && !Mutated(b) && Root(a) == Root(b)
    requires (forall i | 0 <= i < |a| :: Deep(a[i], k)) && forall i | 0 <= i < |b| :: Deep(b[i], k)
    ensures a == b
    decreases |a|
  {
    hide Root, Paired, Twins, Deep;
    RootDeep(a, k);
    RootDeep(b, k);
    OneDepth(Root(a), k + Height(|a|), k + Height(|b|));
    RootIs(a);
    RootIs(b);
    if |a| == 1 || |b| == 1 {
      OneHigh(|a|);
      OneHigh(|b|);
    } else {
      PairedDeep(a, k);
      PairedDeep(b, k);
      SameRoot(Paired(a), Paired(b), k + 1);
      PairedInjective(a, b);
    }
  }

  lemma OneHigh(n: nat)
    requires n > 0
    ensures Height(n) == 0 <==> n == 1
  {
    if n > 1 {
      PairedHeight(n);
    }
  }

  /** Different lists of transactions with the same root: one of them has twins on some level. */
  lemma RootUnique(a: seq<Digest>, b: seq<Digest>)
    requires a != [] && b != [] && a != b && Root(a) == Root(b)
    requires (forall i | 0 <= i < |a| :: a[i].Atom?) && forall i | 0 <= i < |b| :: b[i].Atom?
    ensures Mutated(a) || Mutated(b)
  {
    hide Root, Mutated;
    if !Mutated(a) && !Mutated(b) {
      SameRoot(a, b, 0);
    }
  }
}
