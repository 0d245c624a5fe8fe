/** The transaction slots of a block that is being put together (blockencodings.cpp). */
module BlockSlots {
  import opened Options

  const TWO16 := 0x1_0000
  const TWO64 := 0x1_0000_0000_0000_0000

  /** A transaction by its identity and its two hashes. */
  datatype Tx = Tx(id: nat, hash: nat, witnessHash: nat, isNull: bool)

  type Slots = seq<Option<Tx>>

  function Wrap16(n: nat): (r: nat)
    ensures n < TWO16 ==> r == n
  {
    n % TWO16
  }

  // --- Empty slots --------------------------------------------------------------------------

  /** The empty slots in ascending order. */
  function Gaps(a: Slots): (r: seq<nat>)
    ensures forall k | 0 <= k < |r| :: r[k] < |a| && a[r[k]].None?
    ensures forall j, k | 0 <= j < k < |r| :: r[j] < r[k]
  {
    if a == [] then []
    else Gaps(a[..|a| - 1]) + if a[|a| - 1].None? then [|a| - 1] else []
  }

  /** Every empty slot is listed. */
  lemma {:induction false} GapListed(a: Slots, p: nat)
    requires p < |a| && a[p].None?
    ensures p in Gaps(a)
  {
    if p < |a| - 1 {
      GapListed(a[..|a| - 1], p);
    }
  }

  lemma {:induction false} GapsPrefix(a: Slots, p: nat)
    requires p <= |a|
    ensures Gaps(a[..p]) <= Gaps(a)
  {
    if p == |a| {
      assert a[..p] == a;
    } else {
      GapsPrefix(a[..|a| - 1], p);
      assert a[..|a| - 1][..p] == a[..p];
    }
  }

  lemma GapsNext(a: Slots, p: nat)
    requires p < |a|
    ensures Gaps(a[..p + 1]) == Gaps(a[..p]) + if a[p].None? then [p] else []
  {
    assert a[..p + 1][..p] == a[..p];
  }

  lemma {:induction false} GapFilled(a: Slots, p: nat, tx: Tx)
    requires p < |a| && a[p].None?
    ensures |Gaps(a[p := Some(tx)])| == |Gaps(a)| - 1
  {
    var n := |a| - 1;
    var b := a[p := Some(tx)];
    if p == n {
      assert b[..n] == a[..n];
    } else {
      GapFilled(a[..n], p, tx);
      assert b[..n] == a[..n][p := Some(tx)];
    }
  }

  lemma {:induction false} AllEmpty(n: nat)
    ensures |Gaps(Empty(n))| == n
  {
    if n > 0 {
      AllEmpty(n - 1);
      assert Empty(n)[..n - 1] == Empty(n - 1);
    }
  }

  function Empty(n: nat): (r: Slots)
    ensures |r| == n && forall i | 0 <= i < n :: r[i] == None
  {
    seq(n, _ => None)
  }

  /** With fewer gaps before `p` than in all, the scan has not reached the end. */
  lemma MoreGaps(a: Slots, p: nat)
    requires p <= |a| && |Gaps(a[..p])| < |Gaps(a)|
    ensures p < |a|
  {
    assert a[..|a|] == a;
  }

  lemma ThisGap(a: Slots, p: nat)
    requires p < |a| && a[p].None?
    ensures |Gaps(a[..p])| < |Gaps(a)| && Gaps(a)[|Gaps(a[..p])|] == p
  {
    hide Gaps;
    GapsNext(a, p);
    GapsPrefix(a, p + 1);
  }

  /** Where only empty slots follow, each of them is one more gap. */
  lemma {:induction false} TailGaps(a: Slots, p: nat)
    requires p <= |a| && forall s | p <= s < |a| :: a[s].None?
    ensures |Gaps(a)| == |Gaps(a[..p])| + |a| - p
    decreases |a|
  {
    if p < |a| {
      var front := a[..|a| - 1];
      TailGaps(front, p);
      assert front[..p] == a[..p];
    } else {
      assert a[..p] == a;
    }
  }
}
