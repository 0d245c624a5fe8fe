/** The object that builds, packs and decodes partial Merkle trees, with the positions and counters
    of the code, proved against the shapes of MerkleTree. */
module MerkleBlock {
  import opened Numbers
  import opened MerkleTree
  import opened ByteBits

  // --- Positions ----------------------------------------------------------------------------

  /** The number of nodes at a height of a tree over `n` leaves: each level halves, rounding up. */
  function Width(n: nat, height: nat): nat {
    if height == 0 then n else (Width(n, height - 1) + 1) / 2
  }

  lemma {:induction false} WidthBounds(n: nat, height: nat)
    ensures n <= Width(n, height) * Pow2(height) < n + Pow2(height)
  {
    if height > 0 {
      WidthBounds(n, height - 1);
      HalfBounds(Width(n, height - 1), Width(n, height), Pow2(height - 1));
    }
  }

  lemma HalfBounds(w: int, h: int, p: nat)
    requires w <= 2 * h <= w + 1
    ensures w * p <= h * (2 * p) <= w * p + p
  {
    MulMono(w, 2 * h, p);
    MulMono(2 * h, w + 1, p);
    assert h * (2 * p) == (2 * h) * p;
    assert (w + 1) * p == w * p + p;
  }

  /** The code's closed form, with shifts as division: it agrees with halving level by level. */
  function CalcTreeWidth(n: nat, height: nat): (w: nat)
    ensures w == Width(n, height)
  {
    WidthBounds(n, height);
    DivIs(n + Pow2(height) - 1, Pow2(height), Width(n, height));
    (n + Pow2(height) - 1) / Pow2(height)
  }

  /** The subtree at a position. */
  function Shape(n: nat, height: nat, pos: nat): Tree
    requires pos < Width(n, height)
    decreases height
  {
    if height == 0 then Leaf(pos)
    else if pos * 2 + 1 < Width(n, height - 1) then
      Fork(Shape(n, height - 1, pos * 2), Shape(n, height - 1, pos * 2 + 1))
    else Only(Shape(n, height - 1, pos * 2))
  }

  function End(n: nat, height: nat, pos: nat): nat {
    if (pos + 1) * Pow2(height) < n then (pos + 1) * Pow2(height) else n
  }

  /** The leaves below (height, pos) are those from pos << height to (pos + 1) << height, cut at n. */
  lemma {:induction false} ShapeSpan(n: nat, height: nat, pos: nat)
    requires pos < Width(n, height)
    ensures Level(Shape(n, height, pos), height)
    ensures First(Shape(n, height, pos)) == pos * Pow2(height)
    ensures First(Shape(n, height, pos)) + Count(Shape(n, height, pos)) == End(n, height, pos)
    decreases height
  {
    hide Pow2;
    PowDoubles(height);
    if height > 0 {
      SpanStep(pos, Pow2(height - 1));
      ShapeSpan(n, height - 1, pos * 2);
      WidthBounds(n, height - 1);
      if pos * 2 + 1 < Width(n, height - 1) {
        ShapeSpan(n, height - 1, pos * 2 + 1);
        MulMono(pos * 2 + 2, Width(n, height - 1), Pow2(height - 1));
      } else {
        assert Width(n, height - 1) == pos * 2 + 1;
      }
    }
  }

  lemma PowDoubles(height: nat)
    ensures Pow2(0) == 1 && (height > 0 ==> Pow2(height) == 2 * Pow2(height - 1))
  {
  }

  lemma SpanStep(pos: nat, p: nat)
    ensures pos * (2 * p) == (pos * 2) * p
    ensures (pos * 2 + 1) * p == (pos * 2) * p + p
    ensures (pos * 2 + 2) * p == (pos * 2) * p + 2 * p
    ensures (pos + 1) * (2 * p) == (pos * 2) * p + 2 * p
  {
  }

  /** The height of the tree: the first level with a single node. */
  function Height(n: nat, k: nat := 0): (h: nat)
    ensures k <= h && Width(n, h) <= 1 && (n > 0 ==> Width(n, h) == 1)
    ensures forall j | k <= j < h :: Width(n, j) > 1
    decreases Width(n, k)
  {
    if Width(n, k) <= 1 then
      WidthPositive(n, k);
      k
    else Height(n, k + 1)
  }

  /** The sum in the code's closed form stays below three times the number of leaves, so 32 bits hold it for
      up to a third of 2^32 leaves. */
  lemma WidthFits(n: nat, height: nat)
    requires 0 < n && height <= Height(n)
    ensures n + Pow2(height) - 1 < 3 * n
  {
    if height > 0 {
      var w, p := Width(n, height - 1), Pow2(height - 1);
      WidthBounds(n, height - 1);
      MulMono(2, w, p);
      assert 2 * p <= w * p < n + p;
    }
  }

  lemma {:induction false} WidthPositive(n: nat, height: nat)
    ensures n > 0 ==> Width(n, height) > 0
  {
    if height > 0 {
      WidthPositive(n, height - 1);
    }
  }

  function Whole(n: nat): Tree
    requires n > 0
  {
    Shape(n, Height(n), 0)
  }

  /** The whole tree covers exactly the transactions of the block. */
  lemma WholeSpan(n: nat)
    requires n > 0
    ensures Level(Whole(n), Height(n)) && First(Whole(n)) == 0 && Count(Whole(n)) == n
  {
    ShapeSpan(n, Height(n), 0);
    WidthBounds(n, Height(n));
  }

  ghost function Root(txids: seq<Digest>): Digest
    requires txids != []
  {
    Hash(Whole(|txids|), txids)
  }

  /** The recursion on heights and positions computes the Merkle hash. */
  function CalcHash(height: nat, pos: nat, txids: seq<Digest>): (hash: Digest)
    requires pos < Width(|txids|, height)
    ensures hash == Hash(Shape(|txids|, height, pos), txids)
    decreases height
  {
    if height == 0 then txids[pos]
    else
      var left := CalcHash(height - 1, pos * 2, txids);
      var right := if pos * 2 + 1 < CalcTreeWidth(|txids|, height - 1) then CalcHash(height - 1, pos * 2 + 1, txids)
          else left;
      Node(left, right)
  }

  // --- What the matches are -----------------------------------------------------------------

  /** The matched transactions with indices in [lo, hi), in block order. */
  ghost function Chosen(txids: seq<Digest>, vMatch: seq<bool>, lo: nat, hi: nat): seq<Match>
    requires lo <= hi <= |txids| == |vMatch|
    decreases hi - lo
  {
    if lo == hi then []
    else (if vMatch[lo] then [Match(txids[lo], lo)] else []) + Chosen(txids, vMatch, lo + 1, hi)
  }

  lemma {:induction false} ChosenSplit(txids: seq<Digest>, vMatch: seq<bool>, lo: nat, mid: nat, hi: nat)
    requires lo <= mid <= hi <= |txids| == |vMatch|
    ensures Chosen(txids, vMatch, lo, hi) == Chosen(txids, vMatch, lo, mid) + Chosen(txids, vMatch, mid, hi)
    decreases mid - lo
  {
    if lo < mid {
      ChosenSplit(txids, vMatch, lo + 1, mid, hi);
    }
  }

  lemma {:induction false} LeavesAreChosen(t: Tree, height: nat, txids: seq<Digest>, vMatch: seq<bool>)
    requires Level(t, height) && First(t) + Count(t) <= |txids| == |vMatch|
    ensures Leaves(t, txids, vMatch) == Chosen(txids, vMatch, First(t), First(t) + Count(t))
  {
    match t
    case Leaf(i) => assert Chosen(txids, vMatch, i + 1, i + 1) == [];
    case Only(c) => LeavesAreChosen(c, height - 1, txids, vMatch);
    case Fork(l, r) =>
      LeavesAreChosen(l, height - 1, txids, vMatch);
      LeavesAreChosen(r, height - 1, txids, vMatch);
      ChosenSplit(txids, vMatch, First(l), First(r), First(t) + Count(t));
  }

  /** The loop's reading of "parent of a match". */
  lemma {:induction false} MatchedIsRange(t: Tree, height: nat, vMatch: seq<bool>)
    requires Level(t, height) && First(t) + Count(t) <= |vMatch|
    ensures Matched(t, vMatch) <==> exists p | First(t) <= p < First(t) + Count(t) :: vMatch[p]
  {
    match t
    case Leaf(i) =>
    case Only(c) => MatchedIsRange(c, height - 1, vMatch);
    case Fork(l, r) =>
      MatchedIsRange(l, height - 1, vMatch);
      MatchedIsRange(r, height - 1, vMatch);
  }

  // --- Flag bits in bytes -------------------------------------------------------------------

  /** The bytes hold the bits, least significant first, and are otherwise zero. */
  predicate Packs(bytes: seq<bv8>, bits: seq<bool>) {
    && |bytes| == (|bits| + 7) / 8
    && forall p | 0 <= p < 8 * |bytes| :: BitOf(bytes[p / 8], p % 8) == (p < |bits| && bits[p])
  }

  method PackBits(bits: seq<bool>) returns (bytes: seq<bv8>)
    ensures Packs(bytes, bits)
  {
    var a := new bv8[(|bits| + 7) / 8](_ => 0);
    forall j: nat | j < 8
      ensures !BitOf(0, j)
    {
      ZeroByte(j);
    }
    for p := 0 to |bits|
      invariant forall q | 0 <= q < 8 * a.Length :: BitOf(a[q / 8], q % 8) == (q < p && bits[q])
    {
      if bits[p] {
        forall j: nat | j < 8
          ensures BitOf(a[p / 8] | (1 << (p % 8)), j) <==> j == p % 8 || BitOf(a[p / 8], j)
        {
          SetBit(a[p / 8], p % 8, j);
        }
        a[p / 8] := a[p / 8] | (1 << (p % 8));
      }
    }
    bytes := a[..];
  }

  method UnpackBits(bytes: seq<bv8>) returns (bits: seq<bool>)
    ensures |bits| == 8 * |bytes|
    ensures forall p | 0 <= p < |bits| :: bits[p] == BitOf(bytes[p / 8], p % 8)
  {
    bits := [];
    for p := 0 to 8 * |bytes|
      invariant |bits| == p
      invariant forall q | 0 <= q < p :: bits[q] == BitOf(bytes[q / 8], q % 8)
    {
      bits := bits + [bytes[p / 8] & (1 << (p % 8)) != 0];
    }
  }

  // --- What ExtractMatches computes ---------------------------------------------------------

  /** The checks around the traversal; a failure is reported as a zero root. */
  function Decode(n: nat, maxTransactions: nat, bits: seq<bool>, hashes: seq<Digest>, fBad: bool)
    : (Digest, seq<Match>)
  {
    if n == 0 || n > maxTransactions || |hashes| > n || |bits| < |hashes| then (ZERO, [])
    else
      var (root, c) := Extract(Whole(n), bits, hashes, Cursor(0, 0, fBad, []));
      if c.fBad || (c.bitsUsed + 7) / 8 != (|bits| + 7) / 8 || c.hashUsed != |hashes| then (ZERO, c.matches)
      else (root, c.matches)
  }

  /** What is accepted: a number of transactions within the limit, no more hashes than those or than bits, and a
      good traversal that uses up all hashes and all bits but the padding of the last byte. */
  lemma AcceptedForm(n: nat, maxTransactions: nat, bits: seq<bool>, hashes: seq<Digest>, fBad: bool)
    requires Decode(n, maxTransactions, bits, hashes, fBad).0 != ZERO
    ensures 0 < n <= maxTransactions && |hashes| <= n && |hashes| <= |bits|
    ensures var (root, c) := Extract(Whole(n), bits, hashes, Cursor(0, 0, fBad, []));
            && !c.fBad && c.hashUsed == |hashes| && |bits| < c.bitsUsed + 8
            && Decode(n, maxTransactions, bits, hashes, fBad) == (root, c.matches)
  {
  }

  /** For arbitrary input, a decoder that comes up with the root of a block reports only
      transactions of that block, each at its own index. */
  lemma DecodeSound(txids: seq<Digest>, maxTransactions: nat, bits: seq<bool>, hashes: seq<Digest>, fBad: bool)
    requires txids != []
    requires Decode(|txids|, maxTransactions, bits, hashes, fBad).0 == Root(txids) != ZERO
    ensures forall m <- Decode(|txids|, maxTransactions, bits, hashes, fBad).1 ::
              m.index < |txids| && txids[m.index] == m.txid
  {
    WholeSpan(|txids|);
    ExtractSound(Whole(|txids|), Height(|txids|), txids, bits, hashes, Cursor(0, 0, fBad, []));
    var matches := Decode(|txids|, maxTransactions, bits, hashes, fBad).1;
    assert forall i | 0 <= i < |matches| :: TrueMatch(Whole(|txids|), txids, matches[i]);
  }

  /** Only the block whose one txid is zero has a zero root. */
  lemma ZeroRootIff(txids: seq<Digest>)
    requires txids != []
    ensures Root(txids) == ZERO <==> txids == [ZERO]
  {
    WholeSpan(|txids|);
    var h := Height(|txids|);
    if |txids| == 1 {
      assert Whole(1) == Leaf(0);
    } else {
      assert h > 0 && !Whole(|txids|).Leaf?;
    }
  }

  /** The exception for a zero root is needed: a failed traversal leaves its matches behind, and
      reports a zero root, which is the true root of the block whose only txid is zero. */
  lemma ZeroRootUnsound(txid: Digest, maxTransactions: nat)
    requires txid != ZERO && maxTransactions >= 1
    ensures Root([ZERO]) == ZERO
    ensures Decode(1, maxTransactions, seq(9, _ => true), [txid], false) == (Root([ZERO]), [Match(txid, 0)])
  {
    assert Whole(1) == Leaf(0);
    var bits := seq(9, _ => true);
    assert bits[0] && [] + [Match(txid, 0)] == [Match(txid, 0)];
    assert Extract(Leaf(0), bits, [txid], Cursor(0, 0, false, [])) == (txid, Cursor(1, 1, false, [Match(txid, 0)]));
  }

  /** What the encoder wrote, possibly padded to whole bytes, decodes to the root and exactly the
      matched transactions in order. */
  lemma DecodeComplete(txids: seq<Digest>, vMatch: seq<bool>, maxTransactions: nat, bits: seq<bool>)
    requires Distinct(txids) && 0 < |txids| == |vMatch| <= maxTransactions
    requires Bits(Whole(|txids|), vMatch) <= bits
    requires (|bits| + 7) / 8 == (|Bits(Whole(|txids|), vMatch)| + 7) / 8
    ensures Decode(|txids|, maxTransactions, bits, Hashes(Whole(|txids|), txids, vMatch), false) ==
            (Root(txids), Chosen(txids, vMatch, 0, |txids|))
  {
    var t := Whole(|txids|);
    WholeSpan(|txids|);
    HashCount(t, Height(|txids|), txids, vMatch);
    BitCount(t, txids, vMatch);
    LeavesAreChosen(t, Height(|txids|), txids, vMatch);
    var hashes := Hashes(t, txids, vMatch);
    assert hashes[0..0 + |hashes|] == hashes;
    ExtractBuilt(t, Height(|txids|), txids, vMatch, bits, hashes, Cursor(0, 0, false, []));
    assert [] + Leaves(t, txids, vMatch) == Leaves(t, txids, vMatch);
  }

  /** The documented bounds on the number of hashes. */
  lemma EncodedHashCount(txids: seq<Digest>, vMatch: seq<bool>)
    requires 0 < |txids| == |vMatch|
    ensures |Hashes(Whole(|txids|), txids, vMatch)| <= |txids|
    ensures |Hashes(Whole(|txids|), txids, vMatch)| <= 1 + |Chosen(txids, vMatch, 0, |txids|)| * Height(|txids|)
  {
    WholeSpan(|txids|);
    HashCount(Whole(|txids|), Height(|txids|), txids, vMatch);
    LeavesAreChosen(Whole(|txids|), Height(|txids|), txids, vMatch);
    LeavesCounted(Whole(|txids|), txids, vMatch);
  }

  function Txids(matches: seq<Match>): (r: seq<Digest>)
    ensures |r| == |matches|
  {
    seq(|matches|, i requires 0 <= i < |matches| => matches[i].txid)
  }

  function Indices(matches: seq<Match>): (r: seq<nat>)
    ensures |r| == |matches|
  {
    seq(|matches|, i requires 0 <= i < |matches| => matches[i].index)
  }

  lemma PushMatch(matches: seq<Match>, m: Match)
    ensures Txids(matches + [m]) == Txids(matches) + [m.txid] && Indices(matches + [m]) == Indices(matches) + [m.index]
  {
  }

  lemma Append3<T>(a: seq<T>, b: seq<T>, c: seq<T>, d: seq<T>)
    ensures a + (b + c) + d == a + (b + (c + d)) && [] + c == c && [] + (c + d) == c + d
  {
  }

  /** The loop at the head of TraverseAndBuild. */
  method ParentOfMatch(height: nat, pos: nat, vMatch: seq<bool>) returns (fParentOfMatch: bool)
    requires pos < Width(|vMatch|, height)
    ensures fParentOfMatch == Matched(Shape(|vMatch|, height, pos), vMatch)
  {
    fParentOfMatch := false;
    ghost var t := Shape(|vMatch|, height, pos);
    ShapeSpan(|vMatch|, height, pos);
    MatchedIsRange(t, height, vMatch);
    var p := pos * Pow2(height);
    while p < (pos + 1) * Pow2(height) && p < |vMatch|
      invariant First(t) <= p <= First(t) + Count(t)
      invariant fParentOfMatch <==> exists q | First(t) <= q < p :: vMatch[q]
    {
      fParentOfMatch := fParentOfMatch || vMatch[p];
      p := p + 1;
    }
  }

  class PartialMerkleTree {
    var nTransactions: nat
    var vBits: seq<bool>
    var vHash: seq<Digest>
    var fBad: bool

    constructor Build(vTxid: seq<Digest>, vMatch: seq<bool>)
      requires vTxid != [] && |vMatch| == |vTxid|
      ensures nTransactions == |vTxid| && !fBad
      ensures vBits == Bits(Whole(|vTxid|), vMatch)
      ensures vHash == Hashes(Whole(|vTxid|), vTxid, vMatch)
    {
      nTransactions, fBad := |vTxid|, false;
      vBits, vHash := [], [];
      new;
      var nHeight := TreeHeight(|vTxid|);
      TraverseAndBuild(nHeight, 0, vTxid, vMatch);
    }

    /** Reading back: the flag bits come in whole bytes. */
    constructor Unserialize(nTransactions: nat, vHash: seq<Digest>, vBytes: seq<bv8>)
      ensures this.nTransactions == nTransactions && this.vHash == vHash && !fBad
      ensures |vBits| == 8 * |vBytes| && forall p | 0 <= p < |vBits| :: vBits[p] == BitOf(vBytes[p / 8], p % 8)
    {
      var bits := UnpackBits(vBytes);
      this.nTransactions, this.vHash, vBits, fBad := nTransactions, vHash, bits, false;
    }

    method TraverseAndBuild(height: nat, pos: nat, vTxid: seq<Digest>, vMatch: seq<bool>)
      requires nTransactions == |vTxid| == |vMatch| && pos < Width(|vTxid|, height)
      modifies this`vBits, this`vHash
      ensures vBits == old(vBits) + Bits(Shape(|vTxid|, height, pos), vMatch)
      ensures vHash == old(vHash) + Hashes(Shape(|vTxid|, height, pos), vTxid, vMatch)
      decreases height
    {
      var fParentOfMatch := ParentOfMatch(height, pos, vMatch);
      vBits := vBits + [fParentOfMatch];
      if height == 0 || !fParentOfMatch {
        vHash := vHash + [CalcHash(height, pos, vTxid)];
      } else {
        ghost var l := Shape(|vTxid|, height - 1, pos * 2);
        TraverseAndBuild(height - 1, pos * 2, vTxid, vMatch);
        assert vBits == old(vBits) + ([true] + Bits(l, vMatch));
        if pos * 2 + 1 < CalcTreeWidth(nTransactions, height - 1) {
          ghost var r := Shape(|vTxid|, height - 1, pos * 2 + 1);
          TraverseAndBuild(height - 1, pos * 2 + 1, vTxid, vMatch);
          Append3(old(vBits), [true], Bits(l, vMatch), Bits(r, vMatch));
          Append3(old(vHash), [], Hashes(l, vTxid, vMatch), Hashes(r, vTxid, vMatch));
        }
      }
    }

    method Serialize() returns (n: nat, hashes: seq<Digest>, vBytes: seq<bv8>)
      ensures n == nTransactions && hashes == vHash && Packs(vBytes, vBits)
    {
      n, hashes := nTransactions, vHash;
      vBytes := PackBits(vBits);
    }

    /** `vMatch` and `vnIndex` are the two halves of the matches; `vnIndex` may hold more in front. */
    method TraverseAndExtract(height: nat, pos: nat, nBitsUsed: nat, nHashUsed: nat, vMatch: seq<Digest>,
                              vnIndex: seq<nat>, ghost before: seq<nat>, ghost c: Cursor)
      returns (hash: Digest, bitsUsed: nat, hashUsed: nat, matched: seq<Digest>, indices: seq<nat>)
      requires pos < Width(nTransactions, height)
      requires c.bitsUsed == nBitsUsed && c.hashUsed == nHashUsed && c.fBad == fBad
      requires vMatch == Txids(c.matches) && vnIndex == before + Indices(c.matches)
      modifies this`fBad
      ensures var (h, c') := Extract(Shape(nTransactions, height, pos), vBits, vHash, c);
              && hash == h && bitsUsed == c'.bitsUsed && hashUsed == c'.hashUsed && fBad == c'.fBad
              && matched == Txids(c'.matches) && indices == before + Indices(c'.matches)
      decreases height
    {
      bitsUsed, hashUsed, matched, indices := nBitsUsed, nHashUsed, vMatch, vnIndex;
      if bitsUsed >= |vBits| {
        fBad := true;
        return ZERO, bitsUsed, hashUsed, matched, indices;
      }
      var fParentOfMatch := vBits[bitsUsed];
      bitsUsed := bitsUsed + 1;
      ghost var c0 := c.(bitsUsed := c.bitsUsed + 1);
      if height == 0 || !fParentOfMatch {
        if hashUsed >= |vHash| {
          fBad := true;
          return ZERO, bitsUsed, hashUsed, matched, indices;
        }
        hash := vHash[hashUsed];
        hashUsed := hashUsed + 1;
        if height == 0 && fParentOfMatch {
          PushMatch(c.matches, Match(hash, pos));
          matched, indices := matched + [hash], indices + [pos];
        }
      } else {
        var left, right;
        left, bitsUsed, hashUsed, matched, indices :=
          TraverseAndExtract(height - 1, pos * 2, bitsUsed, hashUsed, matched, indices, before, c0);
        ghost var c1 := Extract(Shape(nTransactions, height - 1, pos * 2), vBits, vHash, c0).1;
        if pos * 2 + 1 < CalcTreeWidth(nTransactions, height - 1) {
          right, bitsUsed, hashUsed, matched, indices :=
            TraverseAndExtract(height - 1, pos * 2 + 1, bitsUsed, hashUsed, matched, indices, before, c1);
          if right == left {
            fBad := true;
          }
        } else {
          right := left;
        }
        hash := Node(left, right);
      }
    }

    /** Fills `vMatch` afresh but appends to `vnIndex`. */
    method ExtractMatches(maxTransactions: nat, vnIndexIn: seq<nat>)
      returns (root: Digest, vMatch: seq<Digest>, vnIndex: seq<nat>)
      modifies this`fBad
      ensures var (r, matches) := Decode(nTransactions, maxTransactions, vBits, vHash, old(fBad));
              root == r && vMatch == Txids(matches) && vnIndex == vnIndexIn + Indices(matches)
    {
      vMatch, vnIndex := [], vnIndexIn;
      if nTransactions == 0 || nTransactions > maxTransactions || |vHash| > nTransactions || |vBits| < |vHash| {
        return ZERO, vMatch, vnIndex;
      }
      var nHeight := TreeHeight(nTransactions);
      var bitsUsed, hashUsed;
      ghost var c := Cursor(0, 0, fBad, []);
      root, bitsUsed, hashUsed, vMatch, vnIndex := TraverseAndExtract(nHeight, 0, 0, 0, vMatch, vnIndex, vnIndexIn, c);
      if fBad || (bitsUsed + 7) / 8 != (|vBits| + 7) / 8 || hashUsed != |vHash| {
        root := ZERO;
      }
    }
  }

  method TreeHeight(n: nat) returns (nHeight: nat)
    ensures nHeight == Height(n)
  {
    nHeight := 0;
    while CalcTreeWidth(n, nHeight) > 1
      invariant Height(n) == Height(n, nHeight)
      decreases Width(n, nHeight)
    {
      nHeight := nHeight + 1;
    }
  }

  /** From block to peer and back: build, serialize, deserialize and extract returns the Merkle root,
      and exactly the matched txids with their indices in order. */
  method RoundTrip(vTxid: seq<Digest>, vMatch: seq<bool>, maxTransactions: nat)
    returns (root: Digest, matched: seq<Digest>, indices: seq<nat>)
    requires Distinct(vTxid) && 0 < |vTxid| == |vMatch| <= maxTransactions
    ensures root == Root(vTxid)
    ensures matched == Txids(Chosen(vTxid, vMatch, 0, |vTxid|)) && indices == Indices(Chosen(vTxid, vMatch, 0, |vTxid|))
  {
    var sent := new PartialMerkleTree.Build(vTxid, vMatch);
    var n, hashes, vBytes := sent.Serialize();
    var received := new PartialMerkleTree.Unserialize(n, hashes, vBytes);
    UnpackedExtends(sent.vBits, vBytes, received.vBits);
    DecodeComplete(vTxid, vMatch, maxTransactions, received.vBits);
    root, matched, indices := received.ExtractMatches(maxTransactions, []);
    assert [] + Indices(Chosen(vTxid, vMatch, 0, |vTxid|)) == Indices(Chosen(vTxid, vMatch, 0, |vTxid|));
  }

  lemma UnpackedExtends(bits: seq<bool>, bytes: seq<bv8>, unpacked: seq<bool>)
    requires Packs(bytes, bits) && |unpacked| == 8 * |bytes|
    requires forall p | 0 <= p < |unpacked| :: unpacked[p] == BitOf(bytes[p / 8], p % 8)
    ensures bits <= unpacked && (|unpacked| + 7) / 8 == (|bits| + 7) / 8
  {
    assert forall p | 0 <= p < |bits| :: bits[p] == unpacked[p];
  }
}
