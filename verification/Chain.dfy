/** Block index entries with skip pointers, and the active chain (chain.cpp and chain.h). */
module Chain {
  import opened Numbers
  import opened SkipWalk
  import opened SkipBound

  class BlockIndex {
    const pprev: BlockIndex?
    const nHeight: nat
    const hash: nat
    const nBits: nat
    const nTime: int
    var pskip: BlockIndex?

    constructor (pprev: BlockIndex?, hash: nat, nBits: nat, nTime: int)
      ensures this.pprev == pprev && this.hash == hash && this.nBits == nBits && this.nTime == nTime && pskip == null
      ensures nHeight == if pprev == null then 0 else pprev.nHeight + 1
    {
      this.pprev, this.hash, this.nBits, this.nTime, pskip := pprev, hash, nBits, nTime, null;
      nHeight := if pprev == null then 0 else pprev.nHeight + 1;
    }
  }

  // --- Ancestors ----------------------------------------------------------------------------

  /** Heights count the way back to a block without predecessor. */
  ghost predicate Linked(b: BlockIndex)
    decreases b.nHeight
  {
    if b.pprev == null then b.nHeight == 0 else b.pprev.nHeight + 1 == b.nHeight && Linked(b.pprev)
  }

  /** The naive walk over pprev. */
  ghost function Ancestor(b: BlockIndex, height: nat): (r: BlockIndex)
    requires Linked(b) && height <= b.nHeight
    ensures Linked(r) && r.nHeight == height
    decreases b.nHeight
  {
    if height == b.nHeight then b else Ancestor(b.pprev, height)
  }

  lemma {:induction false} AncestorOfAncestor(b: BlockIndex, k: nat, h: nat)
    requires Linked(b) && h <= k <= b.nHeight
    ensures Ancestor(Ancestor(b, k), h) == Ancestor(b, h)
    decreases b.nHeight
  {
    if k < b.nHeight {
      AncestorOfAncestor(b.pprev, k, h);
    }
  }

  // --- The block index ----------------------------------------------------------------------

  ghost predicate EntryOk(b: BlockIndex)
    reads b
  {
    Linked(b) && (b.pskip != null ==> b.nHeight > 0 && b.pskip == Ancestor(b, GetSkipHeight(b.nHeight)))
  }

  /** A set of entries with their predecessors, all of whose skip pointers are right or not set. */
  ghost predicate IndexOk(index: set<BlockIndex>)
    reads index
  {
    forall b <- index :: EntryOk(b) && (b.pprev != null ==> b.pprev in index)
  }

  /** Every entry above the first height has its skip pointer. */
  ghost predicate AllSkip(index: set<BlockIndex>)
    reads index
  {
    forall b <- index :: b.nHeight > 0 ==> b.pskip != null
  }

  lemma {:induction false} AncestorInIndex(index: set<BlockIndex>, b: BlockIndex, h: nat)
    requires IndexOk(index) && b in index && h <= b.nHeight
    ensures Ancestor(b, h) in index
    decreases b.nHeight
  {
    assert EntryOk(b);
    if h < b.nHeight {
      AncestorInIndex(index, b.pprev, h);
    }
  }

  lemma InIndex(index: set<BlockIndex>, b: BlockIndex)
    requires IndexOk(index) && b in index
    ensures EntryOk(b) && Linked(b)
  {
    assert EntryOk(b);
  }

  lemma SelfAncestor(b: BlockIndex)
    requires Linked(b)
    ensures Ancestor(b, b.nHeight) == b
  {
  }

  /** Following a skip pointer that does not lead too far keeps the ancestor sought. */
  lemma SkipOn(index: set<BlockIndex>, b: BlockIndex, height: nat)
    requires IndexOk(index) && b in index && b.pskip != null && height <= GetSkipHeight(b.nHeight)
    ensures b.pskip in index && b.pskip.nHeight == GetSkipHeight(b.nHeight) && EntryOk(b) && EntryOk(b.pskip)
    ensures Ancestor(b.pskip, height) == Ancestor(b, height)
  {
    hide GetSkipHeight;
    assert EntryOk(b);
    AncestorOfAncestor(b, b.pskip.nHeight, height);
    AncestorInIndex(index, b, b.pskip.nHeight);
  }

  lemma BackOn(index: set<BlockIndex>, b: BlockIndex, height: nat)
    requires IndexOk(index) && b in index && height < b.nHeight
    ensures b.pprev != null && b.pprev in index && b.pprev.nHeight == b.nHeight - 1 && EntryOk(b) && EntryOk(b.pprev)
    ensures Ancestor(b.pprev, height) == Ancestor(b, height)
  {
    assert EntryOk(b);
    assert EntryOk(b.pprev);
  }

  /** The walk over skip pointers ends at the same block as the naive walk. If they are all set, it takes `Hops`
      steps, so at most 110 up to the height 2^18. */
  method GetAncestor(ghost index: set<BlockIndex>, b: BlockIndex, height: int)
    returns (r: BlockIndex?, ghost hops: nat)
    requires IndexOk(index) && b in index
    ensures r == if 0 <= height <= b.nHeight then (assert EntryOk(b); Ancestor(b, height)) else null
    ensures r != null ==> r in index
    ensures r != null && AllSkip(index) ==> hops == Hops(b.nHeight, height)
    ensures r != null && AllSkip(index) && b.nHeight <= Pow2(18) ==> hops <= 110
  {
    hide GetSkipHeight, Hops, Pow2, Ancestor, IndexOk;
    hops := 0;
    if height > b.nHeight || height < 0 {
      return null, 0;
    }
    InIndex(index, b);
    var pindexWalk, heightWalk := b, b.nHeight;
    while heightWalk > height
      invariant pindexWalk in index && EntryOk(pindexWalk) && heightWalk == pindexWalk.nHeight >= height
      invariant Ancestor(pindexWalk, height) == Ancestor(b, height)
      invariant AllSkip(index) ==> hops + Hops(heightWalk, height) == Hops(b.nHeight, height)
    {
      HopsStep(heightWalk, height);
      var heightSkip := GetSkipHeight(heightWalk);
      var heightSkipPrev := GetSkipHeight(heightWalk - 1);
      if pindexWalk.pskip != null &&
         (heightSkip == height ||
             (heightSkip > height && !(heightSkipPrev < heightSkip - 2 && heightSkipPrev >= height))) {
        SkipOn(index, pindexWalk, height);
        pindexWalk := pindexWalk.pskip;
        heightWalk := heightSkip;
      } else {
        BackOn(index, pindexWalk, height);
        pindexWalk := pindexWalk.pprev;
        heightWalk := heightWalk - 1;
      }
      hops := hops + 1;
    }
    SelfAncestor(pindexWalk);
    HopsEnd(b.nHeight, height);
    return pindexWalk, hops;
  }

  /** Sets the skip pointer of an entry whose predecessors are in the index. */
  method BuildSkip(ghost index: set<BlockIndex>, b: BlockIndex)
    requires IndexOk(index) && Linked(b) && (if b.pprev == null then b.pskip == null else b.pprev in index)
    modifies b
    ensures EntryOk(b) && IndexOk(index + {b})
    ensures b.pprev != null ==> b.pskip != null
    ensures old(AllSkip(index)) ==> AllSkip(index + {b})
  {
    hide GetSkipHeight;
    if b.pprev != null {
      var skip, _ := GetAncestor(index, b.pprev, GetSkipHeight(b.nHeight));
      b.pskip := skip;
      assert forall c <- index :: c != b ==> EntryOk(c);
    }
  }

  /** Heights up to which two blocks have the same ancestors. */
  ghost predicate Shared(a: BlockIndex, b: BlockIndex, h: nat)
    requires Linked(a) && Linked(b)
  {
    h <= a.nHeight && h <= b.nHeight && Ancestor(a, h) == Ancestor(b, h)
  }

  /** Returns the highest common ancestor; there is none exactly when even the first blocks differ. */
  method LastCommonAncestor(ghost index: set<BlockIndex>, a: BlockIndex, b: BlockIndex) returns (r: BlockIndex?)
    requires IndexOk(index) && a in index && b in index
    ensures EntryOk(a) && EntryOk(b)
    ensures r != null ==> r in index && r.nHeight <= a.nHeight && r == Ancestor(a, r.nHeight)
    ensures forall h: nat :: Shared(a, b, h) <==> r != null && h <= r.nHeight
  {
    hide Shared, Ancestor, Linked, IndexOk, GetSkipHeight;
    InIndex(index, a);
    InIndex(index, b);
    var pa: BlockIndex?, pb: BlockIndex? := a, b;
    SelfAncestor(a);
    SelfAncestor(b);
    ghost var hops;
    if a.nHeight > b.nHeight {
      pa, hops := GetAncestor(index, a, b.nHeight);
    } else if b.nHeight > a.nHeight {
      pb, hops := GetAncestor(index, b, a.nHeight);
    }
    SharedBelow(a, b);
    while pa != pb && pa != null && pb != null
      invariant pa == null <==> pb == null
      invariant pa != null ==> pa.nHeight == pb.nHeight && pa.nHeight <= a.nHeight && pb.nHeight <= b.nHeight
      invariant pa != null ==> pa == Ancestor(a, pa.nHeight) && pb == Ancestor(b, pb.nHeight)
      invariant forall h: nat :: Shared(a, b, h) ==> pa != null && h <= pa.nHeight
      decreases Depth(pa)
    {
      StepBack(a, pa.nHeight);
      StepBack(b, pb.nHeight);
      NotShared(a, b, pa.nHeight);
      pa := pa.pprev;
      pb := pb.pprev;
    }
    assert pa == pb;
    if pa != null {
      SharedFrom(a, b, pa.nHeight);
      AncestorInIndex(index, a, pa.nHeight);
    }
    return pa;
  }

  lemma SharedBelow(a: BlockIndex, b: BlockIndex)
    requires Linked(a) && Linked(b)
    ensures forall h: nat :: Shared(a, b, h) ==> h <= a.nHeight && h <= b.nHeight
  {
  }

  lemma NotShared(a: BlockIndex, b: BlockIndex, h: nat)
    requires Linked(a) && Linked(b) && h <= a.nHeight && h <= b.nHeight && Ancestor(a, h) != Ancestor(b, h)
    ensures !Shared(a, b, h)
  {
  }

  lemma SharedFrom(a: BlockIndex, b: BlockIndex, top: nat)
    requires Linked(a) && Linked(b) && top <= a.nHeight && top <= b.nHeight && Ancestor(a, top) == Ancestor(b, top)
    ensures forall h: nat | h <= top :: Shared(a, b, h)
  {
    forall h: nat | h <= top
      ensures Shared(a, b, h)
    {
      AncestorOfAncestor(a, top, h);
      AncestorOfAncestor(b, top, h);
    }
  }

  lemma StepBack(a: BlockIndex, h: nat)
    requires Linked(a) && h <= a.nHeight
    ensures h > 0 ==> Ancestor(a, h).pprev == Ancestor(a, h - 1) && Ancestor(a, h - 1).nHeight == h - 1
    ensures h == 0 ==> Ancestor(a, h).pprev == null
  {
    if h > 0 {
      AncestorOfAncestor(a, h, h - 1);
    }
  }

  // --- The active chain ---------------------------------------------------------------------

  /** Entry by entry the predecessors of the last one. */
  ghost predicate IsChain(v: seq<BlockIndex?>) {
    forall i | 0 <= i < |v| :: v[i] != null && Linked(v[i]) && v[i].nHeight == i && (i > 0 ==> v[i].pprev == v[i - 1])
  }

  lemma {:induction false} ChainAncestor(v: seq<BlockIndex?>, i: nat, h: nat)
    requires IsChain(v) && h <= i < |v|
    ensures v[h] == Ancestor(v[i], h)
  {
    if h < i {
      ChainAncestor(v, i - 1, h);
    }
  }

  class ActiveChain {
    var vChain: seq<BlockIndex?>

    ghost predicate Valid()
      reads this
    {
      IsChain(vChain)
    }

    constructor ()
      ensures Valid() && vChain == []
    {
      vChain := [];
    }

    function Tip(): BlockIndex?
      reads this
    {
      if |vChain| > 0 then vChain[|vChain| - 1] else null
    }

    function At(nHeight: int): BlockIndex?
      reads this
    {
      if nHeight < 0 || nHeight >= |vChain| then null else vChain[nHeight]
    }

    predicate Contains(b: BlockIndex)
      reads this
    {
      At(b.nHeight) == b
    }

    function Height(): int
      reads this
    {
      |vChain| - 1
    }

    /** The successor of a block of the chain: the one block of the chain built on it. */
    function Next(b: BlockIndex): (r: BlockIndex?)
      requires Valid()
      reads this
      ensures r != null ==> Contains(r) && r.pprev == b
      ensures r == null <==> !Contains(b) || b == Tip()
    {
      if Contains(b) then At(b.nHeight + 1) else null
    }

    /** Makes the chain exactly the ancestors of the new tip, although it stops at the first block
        that was in place. */
    method SetTip(tip: BlockIndex?)
      requires Valid() && (tip != null ==> Linked(tip))
      modifies this
      ensures Valid() && Tip() == tip
      ensures tip == null ==> vChain == []
      ensures tip != null ==> |vChain| == tip.nHeight + 1 && forall h | 0 <= h < |vChain| ::
              vChain[h] == Ancestor(tip, h)
    {
      if tip == null {
        vChain := [];
        return;
      }
      ghost var was := vChain;
      var n := tip.nHeight + 1;
      vChain := if n <= |vChain| then vChain[..n] else vChain + seq(n - |vChain|, _ => null);
      var pindex: BlockIndex? := tip;
      while pindex != null && vChain[pindex.nHeight] != pindex
        invariant |vChain| == n
        invariant pindex != null ==> Linked(pindex) && pindex.nHeight < n && pindex == Ancestor(tip, pindex.nHeight)
        invariant forall h | Depth(pindex) <= h < n :: vChain[h] == Ancestor(tip, h)
        invariant forall h | 0 <= h < Depth(pindex) && h < n :: vChain[h] == if h < |was| then was[h] else null
        decreases Depth(pindex)
      {
        StepBack(tip, pindex.nHeight);
        vChain := vChain[pindex.nHeight := pindex];
        pindex := pindex.pprev;
      }
      if pindex != null {
        forall h | 0 <= h < Depth(pindex)
          ensures vChain[h] == Ancestor(tip, h)
        {
          ChainAncestor(was, pindex.nHeight, h);
          AncestorOfAncestor(tip, pindex.nHeight, h);
        }
      }
      forall h | 0 < h < n
        ensures vChain[h].pprev == vChain[h - 1]
      {
        StepBack(tip, h);
      }
    }

    /** The highest ancestor of a block that is in the chain, or nothing if there is none. */
    method FindFork(ghost index: set<BlockIndex>, b: BlockIndex?) returns (r: BlockIndex?)
      requires Valid() && IndexOk(index) && (b != null ==> b in index)
      ensures b == null ==> r == null
      ensures b != null ==> EntryOk(b)
      ensures r != null ==> Contains(r) && r.nHeight <= b.nHeight && r == Ancestor(b, r.nHeight)
      ensures b != null ==> forall h: nat | h <= b.nHeight :: Contains(Ancestor(b, h)) <==> r != null && h <= r.nHeight
    {
      hide GetSkipHeight, Hops, AllSkip, Pow2;
      if b == null {
        return null;
      }
      assert EntryOk(b);
      r := b;
      if b.nHeight > Height() {
        ghost var hops;
        r, hops := GetAncestor(index, b, Height());
      }
      while r != null && !Contains(r)
        invariant r != null ==> EntryOk(r) && r in index && r.nHeight <= b.nHeight && r == Ancestor(b, r.nHeight)
        invariant forall h: nat | h <= b.nHeight :: Contains(Ancestor(b, h)) ==> r != null && h <= r.nHeight
        decreases Depth(r)
      {
        StepBack(b, r.nHeight);
        r := r.pprev;
      }
      if r != null {
        forall h: nat | h <= r.nHeight
          ensures Contains(Ancestor(b, h))
        {
          AncestorOfAncestor(b, r.nHeight, h);
          ChainAncestor(vChain, r.nHeight, h);
        }
      }
    }

    /** A locator: strictly descending ancestors down to the first block, one by one and then in doubling
        steps, so a logarithmic number. */
    method GetLocator(ghost index: set<BlockIndex>, start: BlockIndex?)
      returns (vHave: seq<nat>, ghost blocks: seq<BlockIndex>)
      requires Valid() && IndexOk(index) && (start != null ==> start in index) && (forall b <- vChain :: b in index)
      ensures |vHave| == |blocks| && forall i | 0 <= i < |blocks| :: vHave[i] == blocks[i].hash
      ensures var from := if start == null then Tip() else start;
              if from == null then vHave == []
              else
                && EntryOk(from) && IsLocator(from, blocks) && AtHeights(from, blocks)
                && (|vHave| <= 12 || Pow2(|vHave| - 12) + 10 <= from.nHeight)
    {
      hide Pow2, Descends, IsLocator, IndexOk, Linked, EntryOk, AtHeights, LocatorHeight, StepFrom;
      var nStep := 1;
      vHave, blocks := [], [];
      var pindex := if start == null then Tip() else start;
      ghost var from := pindex;
      if pindex == null {
        return;
      }
      InIndex(index, pindex);
      LocatorStarts(pindex);
      HeightsStart(pindex);
      while true
        invariant pindex != null && pindex in index && EntryOk(from)
        invariant |vHave| == |blocks| && forall i | 0 <= i < |blocks| :: vHave[i] == blocks[i].hash
        invariant Linked(from) && Descends(from, blocks + [pindex])
        invariant AtHeights(from, blocks) && pindex.nHeight == LocatorHeight(from.nHeight, |blocks|)
        invariant nStep == StepFrom(|blocks|)
        decreases pindex.nHeight
      {
        ghost var last := blocks;
        HeightsNext(from, blocks, pindex);
        vHave := vHave + [pindex.hash];
        blocks := blocks + [pindex];
        if pindex.nHeight == 0 {
          LocatorEnds(from, last, pindex);
          break;
        }
        var nHeight := if pindex.nHeight - nStep > 0 then pindex.nHeight - nStep else 0;
        pindex := StepTo(index, from, last, pindex, nHeight);
        if |vHave| > 10 {
          nStep := nStep * 2;
        }
      }
    }

    /** The ancestor at a lower height, from the chain if the block is in it. */
    method StepTo(ghost index: set<BlockIndex>, ghost from: BlockIndex, ghost last: seq<BlockIndex>,
                  pindex: BlockIndex, nHeight: nat)
      returns (r: BlockIndex)
      requires Valid() && IndexOk(index) && pindex in index && nHeight < pindex.nHeight
      requires Linked(from) && Descends(from, last + [pindex])
      ensures r in index && r.nHeight == nHeight && Descends(from, last + [pindex] + [r])
    {
      hide Descends, IsChain;
      assert EntryOk(pindex);
      AncestorInIndex(index, pindex, nHeight);
      DescendsMore(from, last, pindex, Ancestor(pindex, nHeight));
      if Contains(pindex) {
        ChainAncestor(vChain, pindex.nHeight, nHeight);
        r := At(nHeight);
      } else {
        ghost var hops;
        r, hops := GetAncestor(index, pindex, nHeight);
      }
    }
  }

  /** How far below the start the i-th entry of a locator is. */
  function Below(i: nat): nat {
    if i <= 11 then i else Pow2(i - 10) + 9
  }

  function LocatorHeight(height: nat, i: nat): nat {
    if Below(i) < height then height - Below(i) else 0
  }

  /** The step from the i-th entry to the next: one up to the eleventh, then doubling. */
  function StepFrom(i: nat): (step: nat)
    ensures step > 0
  {
    if i <= 10 then 1 else Pow2(i - 10)
  }

  ghost predicate AtHeights(from: BlockIndex, blocks: seq<BlockIndex>) {
    forall i: nat | i < |blocks| :: blocks[i].nHeight == LocatorHeight(from.nHeight, i)
  }

  lemma HeightsStart(from: BlockIndex)
    ensures AtHeights(from, []) && from.nHeight == LocatorHeight(from.nHeight, 0) && StepFrom(0) == 1
  {
  }

  lemma HeightsNext(from: BlockIndex, blocks: seq<BlockIndex>, b: BlockIndex)
    requires AtHeights(from, blocks) && b.nHeight == LocatorHeight(from.nHeight, |blocks|)
    ensures AtHeights(from, blocks + [b])
    ensures var k, step := |blocks|, StepFrom(|blocks|);
            && LocatorHeight(from.nHeight, k + 1) == (if b.nHeight - step > 0 then b.nHeight - step else 0)
            && StepFrom(k + 1) == if k + 1 > 10 then step * 2 else step
  {
    hide Pow2;
    StepsAdd(|blocks|);
  }

  lemma StepsAdd(i: nat)
    ensures Below(i + 1) == Below(i) + StepFrom(i) &&
            StepFrom(i + 1) == if i >= 10 then StepFrom(i) * 2 else StepFrom(i)
  {
    if i >= 10 {
      assert Pow2(i - 9) == 2 * Pow2(i - 10);
      assert Pow2(0) == 1 && Pow2(1) == 2;
    }
  }

  function Depth(b: BlockIndex?): nat {
    if b == null then 0 else b.nHeight + 1
  }

  ghost predicate Descends(from: BlockIndex, blocks: seq<BlockIndex>)
    requires Linked(from)
  {
    && |blocks| > 0 && blocks[0] == from
    && (forall i | 0 <= i < |blocks| ::
        blocks[i].nHeight <= from.nHeight && blocks[i] == Ancestor(from, blocks[i].nHeight))
    && (forall i, j | 0 <= i < j < |blocks| :: blocks[i].nHeight > blocks[j].nHeight)
  }

  ghost predicate IsLocator(from: BlockIndex, blocks: seq<BlockIndex>)
    requires Linked(from)
  {
    Descends(from, blocks) && blocks[|blocks| - 1].nHeight == 0
  }

  lemma DescendsMore(from: BlockIndex, last: seq<BlockIndex>, b: BlockIndex, r: BlockIndex)
    requires Linked(from) && Descends(from, last + [b]) && Linked(b) && r.nHeight < b.nHeight
    requires r == Ancestor(b, r.nHeight)
    ensures Descends(from, last + [b] + [r])
  {
    assert (last + [b])[|last|] == b;
    AncestorOfAncestor(from, b.nHeight, r.nHeight);
  }

  lemma LocatorStarts(from: BlockIndex)
    requires Linked(from)
    ensures Descends(from, [] + [from])
  {
  }

  /** The last entry but one is above the first block, so the steps up to it add to less than the height. */
  lemma LocatorEnds(from: BlockIndex, last: seq<BlockIndex>, b: BlockIndex)
    requires Linked(from) && Descends(from, last + [b]) && b.nHeight == 0 && AtHeights(from, last)
    ensures IsLocator(from, last + [b])
    ensures |last + [b]| <= 12 || Pow2(|last + [b]| - 12) + 10 <= from.nHeight
  {
    var blocks := last + [b];
    assert blocks[|last|] == b;
    if |blocks| > 12 {
      assert blocks[|blocks| - 2] == last[|last| - 1];
      assert blocks[|blocks| - 2].nHeight > 0;
      assert Below(|last| - 1) < from.nHeight && Pow2(1) == 2;
    }
  }

  /** The number of entries in terms of the binary logarithm of the height. */
  lemma LocatorSize(n: nat, top: nat, log: nat)
    requires (n <= 12 || Pow2(n - 12) + 10 <= top) && top < Pow2(log + 1)
    ensures n <= 13 + log
  {
    if n > 13 + log {
      Pow2Mono(log + 1, n - 12);
    }
  }
}
