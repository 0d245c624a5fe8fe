/** The size of a serialized partial Merkle tree, against the guarantee in merkleblock.h. */
module MerkleSize {
  import opened Numbers
  import opened MerkleTree
  import opened MerkleBlock
  import opened ByteBits

  /** The bytes of a length prefix, up to 32 bits. */
  function CompactSize(n: nat): nat {
    if n < 253 then 1 else if n <= 0xffff then 3 else if n <= 0xffff_ffff then 5 else 9
  }

  /** Four bytes for the number of transactions, then the hashes and the bytes of flag bits, each with its length. */
  function SerializedSize(hashes: nat, bytes: nat): nat {
    4 + CompactSize(hashes) + 32 * hashes + CompactSize(bytes) + bytes
  }

  /** Ten bytes and 32.25 per hash, rounded up. */
  function Guaranteed(hashes: nat): nat {
    10 + 32 * hashes + (hashes + 3) / 4
  }

  // --- When the guarantee holds -------------------------------------------------------------

  /** So many bits beyond 2N - 1 find room in the bytes that are counted on. */
  function Room(hashes: nat): nat {
    if hashes % 4 == 0 then 1 else if hashes % 4 == 1 then 7 else if hashes % 4 == 2 then 5 else 3
  }

  /** So many bytes are left because length prefixes are shorter than three bytes. */
  function Slack(hashes: nat): nat {
    var quarter := (hashes + 3) / 4;
    if hashes <= 252 then 4 else if quarter <= 250 then 2 else if quarter == 251 then 1 else 0
  }

  /** With `singles` bits more than 2N - 1, the guarantee holds exactly if there are at most 65535 hashes and
      the further bits fit the room left. */
  lemma SizeIff(hashes: nat, singles: nat)
    requires hashes > 0
    ensures SerializedSize(hashes, (2 * hashes - 1 + singles + 7) / 8) <= Guaranteed(hashes) <==>
            hashes <= 0xffff && singles <= Room(hashes) + 8 * Slack(hashes)
  {
    var quarter, bytes := (hashes + 3) / 4, (2 * hashes - 1 + singles + 7) / 8;
    assert 8 * quarter == 2 * hashes - 1 + Room(hashes);
    BytesBeyond(hashes, singles, quarter);
  }

  /** Each eight bits beyond the room take one byte more. */
  lemma BytesBeyond(hashes: nat, singles: nat, quarter: nat)
    requires hashes > 0 && 8 * quarter == 2 * hashes - 1 + Room(hashes)
    ensures var bytes := (2 * hashes - 1 + singles + 7) / 8;
            bytes >= quarter && (bytes <= quarter + Slack(hashes) <==> singles <= Room(hashes) + 8 * Slack(hashes))
  {
  }

  // --- The further bits ---------------------------------------------------------------------

  /** Levels below `height` with an odd number of nodes. */
  function OddLevels(n: nat, height: nat): nat {
    if height == 0 then 0 else OddLevels(n, height - 1) + Width(n, height - 1) % 2
  }

  /** A node with all its leaves has no only child below it. */
  lemma {:induction false} FullNoSingles(n: nat, height: nat, pos: nat, vMatch: seq<bool>)
    requires pos < Width(n, height) && (pos + 1) * Pow2(height) <= n
    ensures Singles(Shape(n, height, pos), vMatch) == 0
    decreases height
  {
    hide Pow2;
    if height > 0 {
      PowDoubles(height);
      SpanStep(pos, Pow2(height - 1));
      WidthBounds(n, height - 1);
      Enough(pos * 2 + 2, Width(n, height - 1), Pow2(height - 1), n);
      FullNoSingles(n, height - 1, pos * 2, vMatch);
      FullNoSingles(n, height - 1, pos * 2 + 1, vMatch);
    }
  }

  lemma Enough(k: nat, w: nat, p: nat, n: nat)
    requires k * p <= n <= w * p && p > 0
    ensures k <= w
  {
    if k > w {
      MulMono(w + 1, k, p);
    }
  }

  /** If the last node of a level has two children, all leaves of the first are there. */
  lemma EdgeFull(n: nat, height: nat)
    requires Width(n, height) > 0
    ensures (Width(n, height) - 1) * Pow2(height) <= n
  {
    hide Pow2, Width;
    WidthBounds(n, height);
    assert (Width(n, height) - 1) * Pow2(height) == Width(n, height) * Pow2(height) - Pow2(height);
  }

  /** Only children are on the right edge: one on each odd level, if the last transaction is matched. */
  lemma {:induction false} EdgeSingles(n: nat, height: nat, vMatch: seq<bool>)
    requires n > 0 && Width(n, height) > 0
    ensures var t := Shape(n, height, Width(n, height) - 1);
            && Singles(t, vMatch) <= OddLevels(n, height)
            && (n <= |vMatch| && vMatch[n - 1] ==> Matched(t, vMatch) && Singles(t, vMatch) == OddLevels(n, height))
    decreases height
  {
    hide Pow2;
    if height > 0 {
      WidthPositive(n, height - 1);
      EdgeSingles(n, height - 1, vMatch);
      var pos, w := Width(n, height) - 1, Width(n, height - 1);
      if pos * 2 + 1 < w {
        EdgeFull(n, height - 1);
        FullNoSingles(n, height - 1, pos * 2, vMatch);
      }
    }
  }

  lemma {:induction false} OddAtMost(n: nat, height: nat)
    ensures OddLevels(n, height) <= height
  {
    if height > 0 {
      OddAtMost(n, height - 1);
    }
  }

  /** A tree of up to 2^k leaves has at most k levels above them. */
  lemma HeightAtMost(n: nat, k: nat)
    requires n <= Pow2(k)
    ensures Height(n) <= k
  {
    if Height(n) > k {
      WidthBounds(n, k);
      MulMono(2, Width(n, k), Pow2(k));
    }
  }

  /** The message a block is sent in keeps the guarantee exactly under the condition on its hashes and on the
      only children descended through: at most one for each odd level, one for each if the last is matched. */
  lemma SizeOfTree(txids: seq<Digest>, vMatch: seq<bool>, vBytes: seq<bv8>)
    requires 0 < |txids| == |vMatch| && Packs(vBytes, Bits(Whole(|txids|), vMatch))
    ensures var t := Whole(|txids|);
            var hashes, singles := |Hashes(t, txids, vMatch)|, Singles(t, vMatch);
            && singles <= OddLevels(|txids|, Height(|txids|)) <= Height(|txids|)
            && (vMatch[|txids| - 1] ==> singles == OddLevels(|txids|, Height(|txids|)))
            && (SerializedSize(hashes, |vBytes|) <= Guaranteed(hashes) <==>
                hashes <= 0xffff && singles <= Room(hashes) + 8 * Slack(hashes))
  {
    hide SerializedSize, Guaranteed, Room, Slack, Singles, OddLevels, Hashes, Bits, Width, Height, Shape;
    var t, n := Whole(|txids|), |txids|;
    BitCount(t, txids, vMatch);
    SizeIff(|Hashes(t, txids, vMatch)|, Singles(t, vMatch));
    EdgeSingles(n, Height(n), vMatch);
    OddAtMost(n, Height(n));
  }

  /** Up to 252 hashes keep the guarantee in every block whose transactions 32 bits can count. */
  lemma SmallTreesFit(txids: seq<Digest>, vMatch: seq<bool>, vBytes: seq<bv8>)
    requires 0 < |txids| == |vMatch| && |txids| < Pow2(32)
    requires Packs(vBytes, Bits(Whole(|txids|), vMatch)) && |Hashes(Whole(|txids|), txids, vMatch)| <= 252
    ensures var hashes := |Hashes(Whole(|txids|), txids, vMatch)|;
            SerializedSize(hashes, |vBytes|) <= Guaranteed(hashes)
  {
    hide SerializedSize, Guaranteed, Pow2;
    SizeOfTree(txids, vMatch, vBytes);
    HeightAtMost(|txids|, 32);
  }

  // --- A block that breaks it ---------------------------------------------------------------

  /** When every transaction is matched, every txid is sent. */
  lemma {:induction false} AllSent(t: Tree, height: nat, txids: seq<Digest>, vMatch: seq<bool>)
    requires Level(t, height) && First(t) + Count(t) <= |vMatch|
    requires forall i | 0 <= i < |vMatch| :: vMatch[i]
    ensures Matched(t, vMatch) && |Hashes(t, txids, vMatch)| == Count(t)
  {
    match t
    case Leaf(_) =>
    case Only(c) => AllSent(c, height - 1, txids, vMatch);
    case Fork(l, r) =>
      AllSent(l, height - 1, txids, vMatch);
      AllSent(r, height - 1, txids, vMatch);
  }

  /** 1012 transactions, all matched: one byte more than guaranteed. */
  lemma SizeExample(txids: seq<Digest>, vMatch: seq<bool>, vBytes: seq<bv8>)
    requires |txids| == |vMatch| == 1012 && forall i | 0 <= i < |vMatch| :: vMatch[i]
    requires Packs(vBytes, Bits(Whole(1012), vMatch))
    ensures var hashes := |Hashes(Whole(1012), txids, vMatch)|;
            hashes == 1012 && SerializedSize(hashes, |vBytes|) == Guaranteed(hashes) + 1
  {
    hide Height, OddLevels, Width, Shape, Bits, Hashes, Singles, Level, First, Count;
    var t := Whole(1012);
    WholeSpan(1012);
    AllSent(t, Height(1012), txids, vMatch);
    BitCount(t, txids, vMatch);
    Levels1012();
    EdgeSingles(1012, Height(1012), vMatch);
  }

  /** Their levels have 1012, 506, 253, 127, 64, 32, 16, 8, 4, 2 and 1 nodes. */
  lemma Levels1012()
    ensures Height(1012) == 10 && OddLevels(1012, 10) == 2
  {
    assert Width(1012, 1) == 506 && Width(1012, 2) == 253 && Width(1012, 3) == 127 && Width(1012, 4) == 64;
    assert Width(1012, 5) == 32 && Width(1012, 6) == 16 && Width(1012, 7) == 8 && Width(1012, 8) == 4;
    assert Width(1012, 9) == 2 && Width(1012, 10) == 1;
    assert Height(1012) <= 10;
    assert OddLevels(1012, 3) == 1 && OddLevels(1012, 5) == 2 && OddLevels(1012, 8) == 2;
  }
}
