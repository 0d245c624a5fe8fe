/** Partial Merkle trees (`CPartialMerkleTree`), the proof format of BIP 37: what they mean, as
    functions over the shape of the tree. */
module MerkleTree {

  /** Digests as a free type: the node hash is injective. A txid may be any digest, also one that
      looks like an inner node. */
  datatype Digest = Atom(n: nat) | Node(left: Digest, right: Digest)

  /** uint256(), the value that also reports failure. */
  const ZERO := Atom(0)

  /** The shape of a Merkle tree. Where a level has an odd number of nodes the last one is an only
      child, and is hashed with itself. */
  datatype Tree = Leaf(index: nat) | Only(child: Tree) | Fork(left: Tree, right: Tree)

  function First(t: Tree): nat {
    match t
    case Leaf(i) => i
    case Only(c) => First(c)
    case Fork(l, _) => First(l)
  }

  function Count(t: Tree): (n: nat)
    ensures n > 0
  {
    match t
    case Leaf(_) => 1
    case Only(c) => Count(c)
    case Fork(l, r) => Count(l) + Count(r)
  }

  /** All leaves lie at depth `height` and are numbered consecutively. */
  predicate Level(t: Tree, height: nat) {
    match t
    case Leaf(_) => height == 0
    case Only(c) => height > 0 && Level(c, height - 1)
    case Fork(l, r) => height > 0 && Level(l, height - 1) && Level(r, height - 1) && First(r) == First(l) + Count(l)
  }

  function TxidAt(txids: seq<Digest>, i: nat): Digest {
    if i < |txids| then txids[i] else ZERO
  }

  function Hash(t: Tree, txids: seq<Digest>): Digest {
    match t
    case Leaf(i) => TxidAt(txids, i)
    case Only(c) => Node(Hash(c, txids), Hash(c, txids))
    case Fork(l, r) => Node(Hash(l, txids), Hash(r, txids))
  }

  // --- The encoder --------------------------------------------------------------------------

  /** Some leaf below the node is matched. */
  predicate Matched(t: Tree, vMatch: seq<bool>) {
    match t
    case Leaf(i) => i < |vMatch| && vMatch[i]
    case Only(c) => Matched(c, vMatch)
    case Fork(l, r) => Matched(l, vMatch) || Matched(r, vMatch)
  }

  function Bits(t: Tree, vMatch: seq<bool>): (bits: seq<bool>)
    ensures |bits| > 0 && bits[0] == Matched(t, vMatch)
  {
    if t.Leaf? || !Matched(t, vMatch) then [Matched(t, vMatch)]
    else if t.Only? then [true] + Bits(t.child, vMatch)
    else [true] + (Bits(t.left, vMatch) + Bits(t.right, vMatch))
  }

  function Hashes(t: Tree, txids: seq<Digest>, vMatch: seq<bool>): (hashes: seq<Digest>)
    ensures |hashes| > 0
  {
    if t.Leaf? || !Matched(t, vMatch) then [Hash(t, txids)]
    else if t.Only? then Hashes(t.child, txids, vMatch)
    else Hashes(t.left, txids, vMatch) + Hashes(t.right, txids, vMatch)
  }

  // --- The decoder --------------------------------------------------------------------------

  /** A matched txid and its position in the block. */
  datatype Match = Match(txid: Digest, index: nat)

  /** Everything the traversal reads or writes besides the two lists. */
  datatype Cursor = Cursor(bitsUsed: nat, hashUsed: nat, fBad: bool, matches: seq<Match>)

  function Extract(t: Tree, bits: seq<bool>, hashes: seq<Digest>, c: Cursor): (Digest, Cursor) {
    if c.bitsUsed >= |bits| then (ZERO, c.(fBad := true))
    else if t.Leaf? || !bits[c.bitsUsed] then ReadHash(t, bits[c.bitsUsed], hashes, c.(bitsUsed := c.bitsUsed + 1))
    else if t.Only? then
      var (left, c1) := Extract(t.child, bits, hashes, c.(bitsUsed := c.bitsUsed + 1));
      (Node(left, left), c1)
    else
      var (left, c1) := Extract(t.left, bits, hashes, c.(bitsUsed := c.bitsUsed + 1));
      var (right, c2) := Extract(t.right, bits, hashes, c1);
      (Node(left, right), c2.(fBad := c2.fBad || right == left))
  }

  /** A node that is not descended into contributes the next hash. */
  function ReadHash(t: Tree, flag: bool, hashes: seq<Digest>, c: Cursor): (Digest, Cursor) {
    if c.hashUsed >= |hashes| then (ZERO, c.(fBad := true))
    else
      var hash := hashes[c.hashUsed];
      (hash, Cursor(c.bitsUsed, c.hashUsed + 1, c.fBad,
                    if t.Leaf? && flag then c.matches + [Match(hash, t.index)] else c.matches))
  }

  // --- Soundness: the root authenticates the matches ----------------------------------------

  ghost predicate TrueMatch(t: Tree, txids: seq<Digest>, m: Match) {
    First(t) <= m.index < First(t) + Count(t) && m.txid == TxidAt(txids, m.index)
  }

  /** Whatever the bits and hashes are, a traversal that yields a node's true hash adds only matches
      that are true. */
  lemma {:induction false} ExtractSound(t: Tree, height: nat, txids: seq<Digest>, bits: seq<bool>,
                                        hashes: seq<Digest>, c: Cursor)
    requires Level(t, height)
    requires var (hash, c') := Extract(t, bits, hashes, c); !c'.fBad && hash == Hash(t, txids)
    ensures var (_, c') := Extract(t, bits, hashes, c);
            && c.matches <= c'.matches
            && forall i | |c.matches| <= i < |c'.matches| :: TrueMatch(t, txids, c'.matches[i])
  {
    if c.bitsUsed < |bits| && bits[c.bitsUsed] {
      var c0 := c.(bitsUsed := c.bitsUsed + 1);
      match t
      case Leaf(_) =>
      case Only(child) =>
        ExtractSound(child, height - 1, txids, bits, hashes, c0);
      case Fork(l, r) =>
        var (left, c1) := Extract(l, bits, hashes, c0);
        BadStays(r, bits, hashes, c1);
        ExtractSound(l, height - 1, txids, bits, hashes, c0);
        ExtractSound(r, height - 1, txids, bits, hashes, c1);
    }
  }

  lemma {:induction false} BadStays(t: Tree, bits: seq<bool>, hashes: seq<Digest>, c: Cursor)
    ensures c.fBad ==> Extract(t, bits, hashes, c).1.fBad
  {
    var c0 := c.(bitsUsed := c.bitsUsed + 1);
    match t
    case Leaf(_) =>
    case Only(child) => BadStays(child, bits, hashes, c0);
    case Fork(l, r) =>
      BadStays(l, bits, hashes, c0);
      BadStays(r, bits, hashes, Extract(l, bits, hashes, c0).1);
  }

  // --- Completeness: the decoder reads back what the encoder wrote --------------------------

  ghost predicate Distinct(txids: seq<Digest>) {
    forall i, j | 0 <= i < j < |txids| :: txids[i] != txids[j]
  }

  /** Equal hashes of one level have equal first leaves. */
  lemma {:induction false} SameFirstLeaf(a: Tree, b: Tree, height: nat, txids: seq<Digest>)
    requires Level(a, height) && Level(b, height) && Hash(a, txids) == Hash(b, txids)
    ensures TxidAt(txids, First(a)) == TxidAt(txids, First(b))
    decreases height
  {
    if height > 0 {
      SameFirstLeaf(if a.Only? then a.child else a.left, if b.Only? then b.child else b.left, height - 1, txids);
    }
  }

  /** The matched leaves below a node, left to right. */
  ghost function Leaves(t: Tree, txids: seq<Digest>, vMatch: seq<bool>): seq<Match> {
    match t
    case Leaf(i) => if Matched(t, vMatch) then [Match(TxidAt(txids, i), i)] else []
    case Only(c) => Leaves(c, txids, vMatch)
    case Fork(l, r) => Leaves(l, txids, vMatch) + Leaves(r, txids, vMatch)
  }

  lemma {:induction false} UnmatchedLeaves(t: Tree, txids: seq<Digest>, vMatch: seq<bool>)
    ensures !Matched(t, vMatch) ==> Leaves(t, txids, vMatch) == []
  {
    match t
    case Leaf(_) =>
    case Only(c) => UnmatchedLeaves(c, txids, vMatch);
    case Fork(l, r) =>
      UnmatchedLeaves(l, txids, vMatch);
      UnmatchedLeaves(r, txids, vMatch);
  }

  /** The slice of `s` that a cursor position is about to read. */
  ghost predicate ReadsNext<T>(s: seq<T>, from: nat, piece: seq<T>) {
    from + |piece| <= |s| && s[from..from + |piece|] == piece
  }

  lemma ReadsSplit<T>(s: seq<T>, from: nat, a: seq<T>, b: seq<T>)
    requires ReadsNext(s, from, a + b)
    ensures ReadsNext(s, from, a) && ReadsNext(s, from + |a|, b)
  {
    var w := s[from..from + |a + b|];
    assert s[from..from + |a|] == w[..|a|] == a;
    assert s[from + |a|..from + |a| + |b|] == w[|a|..] == b;
  }

  ghost function Advance(c: Cursor, bits: seq<bool>, hashes: seq<Digest>, leaves: seq<Match>): Cursor {
    Cursor(c.bitsUsed + |bits|, c.hashUsed + |hashes|, c.fBad, c.matches + leaves)
  }

  lemma AdvanceTwice(c: Cursor, b1: seq<bool>, b2: seq<bool>, h1: seq<Digest>, h2: seq<Digest>, l1: seq<Match>,
                     l2: seq<Match>)
    ensures Advance(Advance(c, b1, h1, l1), b2, h2, l2) == Advance(c, b1 + b2, h1 + h2, l1 + l2)
  {
    assert (c.matches + l1) + l2 == c.matches + (l1 + l2);
  }

  /** Decoding the node from `c` reads exactly what encoding it wrote. */
  ghost predicate Decodes(t: Tree, txids: seq<Digest>, vMatch: seq<bool>, bits: seq<bool>, hashes: seq<Digest>,
                          c: Cursor) {
    Extract(t, bits, hashes, c) ==
    (Hash(t, txids), Advance(c, Bits(t, vMatch), Hashes(t, txids, vMatch), Leaves(t, txids, vMatch)))
  }

  lemma DecodesStub(t: Tree, txids: seq<Digest>, vMatch: seq<bool>, bits: seq<bool>, hashes: seq<Digest>, c: Cursor)
    requires t.Leaf? || !Matched(t, vMatch)
    requires ReadsNext(bits, c.bitsUsed, Bits(t, vMatch)) && ReadsNext(hashes, c.hashUsed, Hashes(t, txids, vMatch))
    ensures Decodes(t, txids, vMatch, bits, hashes, c)
  {
    UnmatchedLeaves(t, txids, vMatch);
    assert bits[c.bitsUsed] == bits[c.bitsUsed..c.bitsUsed + 1][0];
    assert hashes[c.hashUsed] == hashes[c.hashUsed..c.hashUsed + 1][0];
    assert c.matches + [] == c.matches;
  }

  lemma DecodesFork(t: Tree, txids: seq<Digest>, vMatch: seq<bool>, bits: seq<bool>, hashes: seq<Digest>, c: Cursor,
                    c1: Cursor)
    requires t.Fork? && Matched(t, vMatch) && c.bitsUsed < |bits| && bits[c.bitsUsed]
    requires c1 == Advance(c.(bitsUsed := c.bitsUsed + 1), Bits(t.left, vMatch), Hashes(t.left, txids, vMatch),
            Leaves(t.left, txids, vMatch))
    requires Decodes(t.left, txids, vMatch, bits, hashes, c.(bitsUsed := c.bitsUsed + 1))
    requires Decodes(t.right, txids, vMatch, bits, hashes, c1)
    requires Hash(t.left, txids) != Hash(t.right, txids)
    ensures Decodes(t, txids, vMatch, bits, hashes, c)
  {
    AdvanceTwice(c.(bitsUsed := c.bitsUsed + 1), Bits(t.left, vMatch), Bits(t.right, vMatch),
                 Hashes(t.left, txids, vMatch), Hashes(t.right, txids, vMatch),
                 Leaves(t.left, txids, vMatch), Leaves(t.right, txids, vMatch));
  }

  /** Over distinct txids the left-equals-right alarm never rings. */
  lemma SiblingsDiffer(t: Tree, height: nat, txids: seq<Digest>)
    requires t.Fork? && Level(t, height) && Distinct(txids) && First(t) + Count(t) <= |txids|
    ensures Hash(t.left, txids) != Hash(t.right, txids)
  {
    if Hash(t.left, txids) == Hash(t.right, txids) {
      SameFirstLeaf(t.left, t.right, height - 1, txids);
      assert false;
    }
  }

  /** Where the pieces of a node's encoding lie. */
  lemma ReadsDescent(t: Tree, txids: seq<Digest>, vMatch: seq<bool>, bits: seq<bool>, hashes: seq<Digest>, c: Cursor)
    requires !t.Leaf? && Matched(t, vMatch)
    requires ReadsNext(bits, c.bitsUsed, Bits(t, vMatch)) && ReadsNext(hashes, c.hashUsed, Hashes(t, txids, vMatch))
    ensures bits[c.bitsUsed]
    ensures t.Only? ==>
              && ReadsNext(bits, c.bitsUsed + 1, Bits(t.child, vMatch))
              && ReadsNext(hashes, c.hashUsed, Hashes(t.child, txids, vMatch))
    ensures t.Fork? ==>
              && ReadsNext(bits, c.bitsUsed + 1, Bits(t.left, vMatch))
              && ReadsNext(bits, c.bitsUsed + 1 + |Bits(t.left, vMatch)|, Bits(t.right, vMatch))
              && ReadsNext(hashes, c.hashUsed, Hashes(t.left, txids, vMatch))
              && ReadsNext(hashes, c.hashUsed + |Hashes(t.left, txids, vMatch)|, Hashes(t.right, txids, vMatch))
  {
    assert bits[c.bitsUsed] == bits[c.bitsUsed..c.bitsUsed + |Bits(t, vMatch)|][0];
    if t.Only? {
      ReadsSplit(bits, c.bitsUsed, [true], Bits(t.child, vMatch));
    } else {
      ReadsSplit(bits, c.bitsUsed, [true], Bits(t.left, vMatch) + Bits(t.right, vMatch));
      ReadsSplit(bits, c.bitsUsed + 1, Bits(t.left, vMatch), Bits(t.right, vMatch));
      ReadsSplit(hashes, c.hashUsed, Hashes(t.left, txids, vMatch), Hashes(t.right, txids, vMatch));
    }
  }

  /** Decoding inverts encoding, node by node. */
  lemma {:induction false} ExtractBuilt(t: Tree, height: nat, txids: seq<Digest>, vMatch: seq<bool>,
                                       bits: seq<bool>, hashes: seq<Digest>, c: Cursor)
    requires Level(t, height) && Distinct(txids) && First(t) + Count(t) <= |txids|
    requires ReadsNext(bits, c.bitsUsed, Bits(t, vMatch))
    requires ReadsNext(hashes, c.hashUsed, Hashes(t, txids, vMatch))
    ensures Decodes(t, txids, vMatch, bits, hashes, c)
  {
    if t.Leaf? || !Matched(t, vMatch) {
      DecodesStub(t, txids, vMatch, bits, hashes, c);
    } else {
      var c0 := c.(bitsUsed := c.bitsUsed + 1);
      ReadsDescent(t, txids, vMatch, bits, hashes, c);
      if t.Only? {
        ExtractBuilt(t.child, height - 1, txids, vMatch, bits, hashes, c0);
      } else {
        ExtractBuilt(t.left, height - 1, txids, vMatch, bits, hashes, c0);
        var c1 := Advance(c0, Bits(t.left, vMatch), Hashes(t.left, txids, vMatch), Leaves(t.left, txids, vMatch));
        ExtractBuilt(t.right, height - 1, txids, vMatch, bits, hashes, c1);
        SiblingsDiffer(t, height, txids);
        DecodesFork(t, txids, vMatch, bits, hashes, c, c1);
      }
    }
  }

  // --- Sizes --------------------------------------------------------------------------------

  ghost function MatchCount(t: Tree, vMatch: seq<bool>): nat {
    match t
    case Leaf(_) => if Matched(t, vMatch) then 1 else 0
    case Only(c) => MatchCount(c, vMatch)
    case Fork(l, r) => MatchCount(l, vMatch) + MatchCount(r, vMatch)
  }

  /** Nodes with one child that the encoder descends through. */
  ghost function Singles(t: Tree, vMatch: seq<bool>): nat {
    if t.Leaf? || !Matched(t, vMatch) then 0
    else if t.Only? then 1 + Singles(t.child, vMatch)
    else Singles(t.left, vMatch) + Singles(t.right, vMatch)
  }

  /** At most one hash per transaction, and at most one per level and match plus one. */
  lemma {:induction false} HashCount(t: Tree, height: nat, txids: seq<Digest>, vMatch: seq<bool>)
    requires Level(t, height)
    ensures |Hashes(t, txids, vMatch)| <= Count(t)
    ensures |Hashes(t, txids, vMatch)| <= 1 + MatchCount(t, vMatch) * height
    ensures Matched(t, vMatch) <==> MatchCount(t, vMatch) > 0
  {
    match t
    case Leaf(_) =>
    case Only(c) =>
      HashCount(c, height - 1, txids, vMatch);
      MulStep(MatchCount(c, vMatch), 0, height);
    case Fork(l, r) =>
      HashCount(l, height - 1, txids, vMatch);
      HashCount(r, height - 1, txids, vMatch);
      MulStep(MatchCount(l, vMatch), MatchCount(r, vMatch), height);
  }

  lemma MulStep(a: nat, b: nat, h: nat)
    requires h > 0
    ensures (a + b) * h == a * (h - 1) + b * (h - 1) + a + b
    ensures a == 0 ==> a * (h - 1) == 0
    ensures b == 0 ==> b * (h - 1) == 0
  {
  }

  lemma {:induction false} LeavesCounted(t: Tree, txids: seq<Digest>, vMatch: seq<bool>)
    ensures MatchCount(t, vMatch) == |Leaves(t, txids, vMatch)|
  {
    match t
    case Leaf(_) =>
    case Only(c) => LeavesCounted(c, txids, vMatch);
    case Fork(l, r) =>
      LeavesCounted(l, txids, vMatch);
      LeavesCounted(r, txids, vMatch);
  }

  /** The exact number of flag bits: two per hash less one, plus one for each only child on the way.
      The format comment promises at most 2 * N - 1; that holds exactly when there is none. */
  lemma {:induction false} BitCount(t: Tree, txids: seq<Digest>, vMatch: seq<bool>)
    ensures |Bits(t, vMatch)| == 2 * |Hashes(t, txids, vMatch)| - 1 + Singles(t, vMatch)
    ensures |Bits(t, vMatch)| <= 2 * |Hashes(t, txids, vMatch)| - 1 <==> Singles(t, vMatch) == 0
  {
    match t
    case Leaf(_) =>
    case Only(c) => BitCount(c, txids, vMatch);
    case Fork(l, r) =>
      BitCount(l, txids, vMatch);
      BitCount(r, txids, vMatch);
  }

  /** Three transactions, the last one matched: four bits for two hashes. */
  lemma BitCountExample(txids: seq<Digest>)
    ensures var t := Fork(Fork(Leaf(0), Leaf(1)), Only(Leaf(2)));
            && Level(t, 2)
            && |Bits(t, [false, false, true])| == 4
            && |Hashes(t, txids, [false, false, true])| == 2
  {
    var m := [false, false, true];
    assert Bits(Only(Leaf(2)), m) == [true, true];
    assert Bits(Fork(Leaf(0), Leaf(1)), m) == [false];
    assert |Hashes(Only(Leaf(2)), txids, m)| == 1;
  }
}
