/** The rolling Bloom filter: three generations in two bits per position (bloom.cpp). */
module Bloom {
  import opened Numbers

  type Key = seq<nat>
  /** Hash number, tweak and key to 32 bits. */
  type Hasher = (nat, nat, Key) -> bv32

  // --- Two bits per position ----------------------------------------------------------------

  type BitNo = b: bv7 | b < 64

  predicate Bit(x: bv64, b: BitNo) {
    x & Single(b) != 0
  }

  function Single(b: BitNo): bv64 {
    1 << b
  }

  /** The generation stored at bit `b` of a pair of words; zero when there is none. */
  function Gen(p1: bv64, p2: bv64, b: BitNo): nat {
    (if Bit(p1, b) then 1 else 0) + (if Bit(p2, b) then 2 else 0)
  }

  function Number(g: bv64): nat {
    if g == 1 then 1 else if g == 2 then 2 else 3
  }

  // Each word operation under a name of its own, so that proofs can treat it as a whole.
  function And(x: bv64, y: bv64): bv64 { x & y }
  function Or(x: bv64, y: bv64): bv64 { x | y }
  function Xor(x: bv64, y: bv64): bv64 { x ^ y }
  function Not(x: bv64): bv64 { !x }
  function Shl(v: bv64, b: BitNo): bv64 { v << b }
  function Minus(v: bv64): bv64 { 0 - v }
  function Low(g: bv64): bv64 { g & 1 }
  function High(g: bv64): bv64 { g >> 1 }

  function Put(x: bv64, b: BitNo, v: bv64): bv64 {
    Or(And(x, Not(Shl(1, b))), Shl(v, b))
  }

  function WipeMask(p1: bv64, p2: bv64, g: bv64): bv64 {
    Or(Xor(p1, Minus(Low(g))), Xor(p2, Minus(High(g))))
  }

  lemma XorWord(x: bv64, y: bv64, j: BitNo)
    ensures Bit(x ^ y, j) <==> Bit(x, j) != Bit(y, j)
  {
  }

  lemma AndWord(x: bv64, y: bv64, j: BitNo)
    ensures Bit(x & y, j) <==> Bit(x, j) && Bit(y, j)
  {
  }

  lemma NotWord(x: bv64, j: BitNo)
    ensures Bit(!x, j) <==> !Bit(x, j)
  {
  }

  lemma OrBit(x: bv64, y: bv64, j: BitNo)
    ensures Bit(Or(x, y), j) <==> Bit(x, j) || Bit(y, j)
  {
    hide Bit, Or, And, Not;
    OrIsNotAnd(x, y);
    NotBit(And(Not(x), Not(y)), j);
    AndBit(Not(x), Not(y), j);
    NotBit(x, j);
    NotBit(y, j);
  }

  lemma OrIsNotAnd(x: bv64, y: bv64)
    ensures Or(x, y) == Not(And(Not(x), Not(y)))
  {
  }

  lemma XorBit(x: bv64, y: bv64, j: BitNo)
    ensures Bit(Xor(x, y), j) <==> Bit(x, j) != Bit(y, j)
  {
    hide Bit;
    XorWord(x, y, j);
  }

  lemma AndBit(x: bv64, y: bv64, j: BitNo)
    ensures Bit(And(x, y), j) <==> Bit(x, j) && Bit(y, j)
  {
    hide Bit;
    AndWord(x, y, j);
  }

  lemma NotBit(x: bv64, j: BitNo)
    ensures Bit(Not(x), j) <==> !Bit(x, j)
  {
    hide Bit;
    NotWord(x, j);
  }

  lemma OneBit(v: bv64, b: BitNo, j: BitNo)
    requires v <= 1
    ensures Bit(Shl(v, b), j) <==> j == b && v == 1
  {
  }

  /** Zero minus a bit is a word full of that bit. */
  lemma FullWord(v: bv64, j: BitNo)
    requires v <= 1
    ensures Bit(Minus(v), j) <==> v == 1
  {
  }

  lemma PutBit(x: bv64, b: BitNo, v: bv64, j: BitNo)
    requires v <= 1
    ensures Bit(Put(x, b, v), j) <==> if j == b then v == 1 else Bit(x, j)
  {
    hide Bit, And, Or, Not, Shl;
    OrBit(And(x, Not(Shl(1, b))), Shl(v, b), j);
    AndBit(x, Not(Shl(1, b)), j);
    NotBit(Shl(1, b), j);
    OneBit(1, b, j);
    OneBit(v, b, j);
  }

  lemma GenBits(g: bv64)
    requires 1 <= g <= 3
    ensures Low(g) <= 1 && High(g) <= 1
    ensures Number(g) == (if Low(g) == 1 then 1 else 0) + (if High(g) == 1 then 2 else 0)
  {
  }

  function NextGeneration(g: bv64): bv64 {
    if g + 1 == 4 then 1 else g + 1
  }

  lemma NextGenerationIs(g: bv64)
    requires 1 <= g <= 3
    ensures 1 <= NextGeneration(g) <= 3
    ensures Number(NextGeneration(g)) == if Number(g) == 3 then 1 else Number(g) + 1
  {
  }

  /** How a bit is read. */
  predicate Shifted(x: bv64, b: BitNo) {
    (x >> b) & 1 == 1
  }

  lemma ShiftedIs(x: bv64, b: BitNo)
    ensures Shifted(x, b) <==> Bit(x, b)
  {
  }

  lemma PutGen(p1: bv64, p2: bv64, b: BitNo, g: bv64, j: BitNo)
    requires 1 <= g <= 3
    ensures Gen(Put(p1, b, Low(g)), Put(p2, b, High(g)), j) == if j == b then Number(g) else Gen(p1, p2, j)
  {
    hide Bit, Put, Low, High, Number;
    GenBits(g);
    PutBit(p1, b, Low(g), j);
    PutBit(p2, b, High(g), j);
  }

  lemma MaskBit(p1: bv64, p2: bv64, g: bv64, j: BitNo)
    requires Low(g) <= 1 && High(g) <= 1
    ensures Bit(WipeMask(p1, p2, g), j) <==> Bit(p1, j) != (Low(g) == 1) || Bit(p2, j) != (High(g) == 1)
  {
    hide Bit, Or, Xor, Minus, Low, High;
    OrBit(Xor(p1, Minus(Low(g))), Xor(p2, Minus(High(g))), j);
    XorBit(p1, Minus(Low(g)), j);
    XorBit(p2, Minus(High(g)), j);
    FullWord(Low(g), j);
    FullWord(High(g), j);
  }

  /** The masked wipe clears exactly the positions of one generation. */
  lemma WipeGen(p1: bv64, p2: bv64, g: bv64, j: BitNo)
    requires 1 <= g <= 3
    ensures var mask := WipeMask(p1, p2, g);
            Gen(And(p1, mask), And(p2, mask), j) == if Gen(p1, p2, j) == Number(g) then 0 else Gen(p1, p2, j)
  {
    hide Bit, WipeMask, Number, And, Low, High;
    GenBits(g);
    MaskBit(p1, p2, g, j);
    AndBit(p1, WipeMask(p1, p2, g), j);
    AndBit(p2, WipeMask(p1, p2, g), j);
  }

  lemma EitherBit(p1: bv64, p2: bv64, j: BitNo)
    ensures Shifted(Or(p1, p2), j) <==> Gen(p1, p2, j) != 0
  {
    hide Bit, Or, Shifted;
    ShiftedIs(Or(p1, p2), j);
    OrBit(p1, p2, j);
  }

  // --- Positions and generations ------------------------------------------------------------

  datatype Position = Position(word: nat, bit: BitNo)

  /** The n-th position of a key in `size` words, taken in pairs. */
  function At(h: Hasher, tweak: nat, size: nat, key: Key, n: nat): (p: Position)
    requires size > 0 && size % 2 == 0
    ensures 2 * p.word + 1 < size
  {
    var hash := h(n, tweak, key);
    Position(HighBits(hash) % size / 2, LowBits(hash))
  }

  function LowBits(hash: bv32): BitNo {
    (hash & 0x3f) as bv7
  }

  function HighBits(hash: bv32): nat {
    (hash >> 6) as nat
  }

  /** The position is made of the n-th hash: its last six bits, and which pair of words the rest is in, counted
      round and round. */
  lemma AtIs(h: Hasher, tweak: nat, size: nat, key: Key, n: nat)
    requires size > 0 && size % 2 == 0
    ensures var p, hash := At(h, tweak, size, key, n), h(n, tweak, key);
            && ((hash >> 6) << 6) | p.bit as bv32 == hash
            && exists rounds: nat :: 2 * p.word <= HighBits(hash) - rounds * size <= 2 * p.word + 1
  {
    hide LowBits, HighBits;
    var hash := h(n, tweak, key);
    SixBits(hash);
    var rounds := InPair(HighBits(hash), size);
  }

  lemma InPair(x: nat, size: nat) returns (rounds: nat)
    requires size > 0
    ensures var word := x % size / 2; 2 * word <= x - rounds * size <= 2 * word + 1
  {
    DivBounds(x, size);
    DivAtMost(x, size);
    rounds := x / size;
  }

  lemma SixBits(hash: bv32)
    ensures ((hash >> 6) << 6) | LowBits(hash) as bv32 == hash
  {
  }

  /** The position is one of the first `n` of the key. */
  predicate Among(h: Hasher, tweak: nat, size: nat, key: Key, n: nat, p: Position)
    requires size > 0 && size % 2 == 0
  {
    exists i: nat | i < n :: At(h, tweak, size, key, i) == p
  }

  datatype Setup = Setup(h: Hasher, tweak: nat, size: nat, hashes: nat, perGeneration: nat)

  predicate SetupOk(s: Setup) {
    s.size > 0 && s.size % 2 == 0 && s.perGeneration > 0
  }

  /** The generation, counted from the start, in which the k-th key was inserted. */
  function Epoch(s: Setup, k: nat): nat
    requires SetupOk(s)
  {
    DivAtMost(k, s.perGeneration);
    k / s.perGeneration
  }

  function Current(s: Setup, keys: seq<Key>): nat
    requires SetupOk(s)
  {
    if keys == [] then 0 else Epoch(s, |keys| - 1)
  }

  /** The epoch that last wrote a position, or -1. */
  function Last(s: Setup, keys: seq<Key>, p: Position): (e: int)
    requires SetupOk(s)
    ensures -1 <= e
  {
    if keys == [] then -1
    else if Among(s.h, s.tweak, s.size, keys[|keys| - 1], s.hashes, p) then Epoch(s, |keys| - 1)
    else Last(s, keys[..|keys| - 1], p)
  }

  /** What is stored for a position last written in epoch `last`, when `current` is under way. */
  function Stored(last: int, current: nat): nat {
    if last < 0 || last < current - 2 then 0 else last % 3 + 1
  }

  lemma EpochSteps(s: Setup, k: nat)
    requires SetupOk(s)
    ensures Epoch(s, k + 1) == if (k + 1) % s.perGeneration == 0 then Epoch(s, k) + 1 else Epoch(s, k)
    ensures (k + 1) % s.perGeneration == if k % s.perGeneration + 1 == s.perGeneration then 0
            else k % s.perGeneration + 1
  {
    var e := s.perGeneration;
    var q, r := k / e, k % e;
    assert k == q * e + r;
    if r + 1 == e {
      assert k + 1 == (q + 1) * e;
      ModIs(k + 1, e, q + 1, 0);
    } else {
      ModIs(k + 1, e, q, r + 1);
    }
  }

  lemma {:induction false} EpochMono(s: Setup, j: nat, k: nat)
    requires SetupOk(s) && j <= k
    ensures Epoch(s, j) <= Epoch(s, k)
    decreases k
  {
    if j < k {
      EpochMono(s, j, k - 1);
      EpochSteps(s, k - 1);
    }
  }

  lemma {:induction false} LastAtMost(s: Setup, keys: seq<Key>, p: Position)
    requires SetupOk(s)
    ensures Last(s, keys, p) <= Current(s, keys)
  {
    if keys != [] {
      LastAtMost(s, keys[..|keys| - 1], p);
      if |keys| > 1 {
        EpochMono(s, |keys| - 2, |keys| - 1);
      }
    }
  }

  /** A position is at least as recent as any key written to it. */
  lemma {:induction false} LastAtLeast(s: Setup, keys: seq<Key>, k: nat, p: Position)
    requires SetupOk(s) && k < |keys| && Among(s.h, s.tweak, s.size, keys[k], s.hashes, p)
    ensures Last(s, keys, p) >= Epoch(s, k)
  {
    EpochMono(s, k, |keys| - 1);
    if k < |keys| - 1 {
      LastAtLeast(s, keys[..|keys| - 1], k, p);
    }
  }

  /** The last two generations of keys, and those of the current one, are recent enough. */
  lemma RecentEpoch(s: Setup, k: nat, n: nat)
    requires SetupOk(s) && k < n && n - 2 * s.perGeneration - ((n - 1) % s.perGeneration + 1) <= k
    ensures Epoch(s, k) >= Epoch(s, n - 1) - 2
  {
    var e := s.perGeneration;
    var c, r := (n - 1) / e, (n - 1) % e;
    assert n - 1 == c * e + r;
    Difference(c, 2, e);
    DivBounds(k, e);
    QuotientAbove(k, k / e, e, c - 2);
  }

  /** Advancing to the next epoch drops what is three epochs old: the stored number says which. */
  lemma StoredNext(last: int, current: nat)
    requires -1 <= last <= current
    ensures Stored(last, current + 1) == if Stored(last, current) == (current + 1) % 3 + 1 then 0
            else Stored(last, current)
  {
  }

  // --- The filter ---------------------------------------------------------------------------

  /** The stored generation of a position. */
  function GenAt(data: seq<bv64>, p: Position): nat
    requires 2 * p.word + 1 < |data|
  {
    Gen(data[2 * p.word], data[2 * p.word + 1], p.bit)
  }

  ghost predicate Remembers(s: Setup, keys: seq<Key>, data: seq<bv64>)
    requires SetupOk(s) && |data| == s.size
  {
    forall p: Position | 2 * p.word + 1 < s.size :: GenAt(data, p) == Stored(Last(s, keys, p), Current(s, keys))
  }

  /** Part of a key is written: its first `n` positions. */
  ghost predicate Writing(s: Setup, keys: seq<Key>, data: seq<bv64>, current: nat, key: Key, n: nat)
    requires SetupOk(s) && |data| == s.size
  {
    forall p: Position | 2 * p.word + 1 < s.size ::
      GenAt(data, p) == if Among(s.h, s.tweak, s.size, key, n, p) then current % 3 + 1
          else Stored(Last(s, keys, p), current)
  }

  /** One wiped pair of words. */
  lemma WipePair(data: seq<bv64>, w: nat, g: bv64, p: Position)
    requires 2 * w + 1 < |data| && 2 * p.word + 1 < |data| && 1 <= g <= 3
    ensures var mask := WipeMask(data[2 * w], data[2 * w + 1], g);
            var after := data[2 * w := And(data[2 * w], mask)][2 * w + 1 := And(data[2 * w + 1], mask)];
            GenAt(after, p) == if p.word == w && GenAt(data, p) == Number(g) then 0 else GenAt(data, p)
  {
    hide Gen, And, WipeMask, Number;
    if p.word == w {
      WipeGen(data[2 * w], data[2 * w + 1], g, p.bit);
    }
  }

  lemma PutPair(data: seq<bv64>, q: Position, g: bv64, p: Position)
    requires 2 * q.word + 1 < |data| && 2 * p.word + 1 < |data| && 1 <= g <= 3
    ensures var w := 2 * q.word;
            var after := data[w := Put(data[w], q.bit, Low(g))][w + 1 := Put(data[w + 1], q.bit, High(g))];
            GenAt(after, p) == if p == q then Number(g) else GenAt(data, p)
  {
    hide Gen, Put, Low, High, Number;
    if p.word == q.word {
      PutGen(data[2 * q.word], data[2 * q.word + 1], q.bit, g, p.bit);
    }
  }

  lemma AmongNext(h: Hasher, tweak: nat, size: nat, key: Key, n: nat, p: Position)
    requires size > 0 && size % 2 == 0
    ensures Among(h, tweak, size, key, n + 1, p) <==>
            Among(h, tweak, size, key, n, p) || At(h, tweak, size, key, n) == p
  {
  }

  class RollingBloomFilter {
    var setup: Setup
    const data: array<bv64>
    var nEntriesThisGeneration: nat
    var nGeneration: bv64
    /** The keys inserted since the filter was set up. */
    ghost var keys: seq<Key>

    ghost predicate Shaped()
      reads this
    {
      && SetupOk(setup) && data.Length == setup.size && 1 <= nGeneration <= 3
      && Number(nGeneration) == Current(setup, keys) % 3 + 1
      && nEntriesThisGeneration == if keys == [] then 0 else (|keys| - 1) % setup.perGeneration + 1
    }

    ghost predicate Valid()
      reads this, data
    {
      Shaped() && Remembers(setup, keys, data[..])
    }

    /** A filter for the last `nElements` keys; its size in words comes from the false positive rate. */
    constructor (h: Hasher, tweak: nat, nElements: nat, words: nat, hashes: nat)
      requires nElements >= 1 && words >= 1
      ensures Valid() && keys == [] && 2 * setup.perGeneration >= nElements && fresh(data)
    {
      setup := Setup(h, tweak, 2 * words, hashes, (nElements + 1) / 2);
      data := new bv64[2 * words](_ => 0);
      nEntriesThisGeneration, nGeneration, keys := 0, 1, [];
      new;
      forall p: Position | 2 * p.word + 1 < setup.size
        ensures GenAt(data[..], p) == 0
      {
        NothingStored(p.bit);
      }
    }

    method Insert(key: Key)
      requires Valid()
      modifies this, data
      ensures Valid() && keys == old(keys) + [key] && setup == old(setup)
    {
      hide Stored, GenAt, Number, NextGeneration, Epoch, Last, Among, Remembers, Writing;
      ghost var before, current := keys, Current(setup, keys + [key]);
      NextEpoch(setup, keys, key, nEntriesThisGeneration);
      if nEntriesThisGeneration == setup.perGeneration {
        nEntriesThisGeneration := 0;
        NextGenerationIs(nGeneration);
        nGeneration := NextGeneration(nGeneration);
        NextNumber(Current(setup, before));
        Wipe(current);
      } else {
        KeepWriting(setup, before, data[..]);
      }
      StartWriting(setup, before, data[..], current, key);
      nEntriesThisGeneration := nEntriesThisGeneration + 1;
      var n := 0;
      while n < setup.hashes
        invariant 0 <= n <= setup.hashes && 1 <= nGeneration <= 3 && Number(nGeneration) == current % 3 + 1
        invariant keys == before && setup == old(setup) && nEntriesThisGeneration == |before| % setup.perGeneration + 1
        invariant Writing(setup, before, data[..], current, key, n)
      {
        Write(before, current, key, n);
        n := n + 1;
      }
      EndWriting(setup, before, data[..], current, key);
      keys := keys + [key];
    }

    /** Clears the positions that still hold the generation number now to be used again. */
    method Wipe(ghost current: nat)
      requires SetupOk(setup) && data.Length == setup.size && 1 <= nGeneration <= 3
      requires current > 0 && Current(setup, keys) == current - 1 && Number(nGeneration) == current % 3 + 1
      requires Remembers(setup, keys, data[..])
      modifies data
      ensures forall p: Position | 2 * p.word + 1 < setup.size ::
              GenAt(data[..], p) == Stored(Last(setup, keys, p), current)
    {
      hide Stored, Gen, Number, Last, WipeMask, And;
      ghost var s := data[..];
      var p := 0;
      while p < data.Length
        invariant 0 <= p <= data.Length && p % 2 == 0
        invariant forall q: Position | 2 * q.word + 1 < setup.size ::
                    GenAt(data[..], q) ==
                    if 2 * q.word < p && GenAt(s, q) == Number(nGeneration) then 0 else GenAt(s, q)
      {
        ghost var t := data[..];
        forall q: Position | 2 * q.word + 1 < setup.size {
          WipePair(t, p / 2, nGeneration, q);
        }
        var mask := WipeMask(data[p], data[p + 1], nGeneration);
        data[p], data[p + 1] := And(data[p], mask), And(data[p + 1], mask);
        assert data[..] == t[p := And(t[p], mask)][p + 1 := And(t[p + 1], mask)];
        p := p + 2;
      }
      forall q: Position | 2 * q.word + 1 < setup.size
        ensures GenAt(data[..], q) == Stored(Last(setup, keys, q), current)
      {
        LastAtMost(setup, keys, q);
        StoredNext(Last(setup, keys, q), current - 1);
      }
    }

    /** Writes the current generation at one position of the key. */
    method Write(ghost before: seq<Key>, ghost current: nat, key: Key, n: nat)
      requires SetupOk(setup) && data.Length == setup.size && 1 <= nGeneration <= 3
      requires Number(nGeneration) == current % 3 + 1
      requires Writing(setup, before, data[..], current, key, n)
      modifies data
      ensures Writing(setup, before, data[..], current, key, n + 1)
    {
      hide Stored, Gen, Number, Last, Put, Low, High, Among;
      ghost var t := data[..];
      var q := At(setup.h, setup.tweak, setup.size, key, n);
      var pos := 2 * q.word;
      data[pos], data[pos + 1] := Put(data[pos], q.bit, Low(nGeneration)), Put(data[pos + 1], q.bit, High(nGeneration));
      ghost var low, high := Put(t[pos], q.bit, Low(nGeneration)), Put(t[pos + 1], q.bit, High(nGeneration));
      assert data[..] == t[pos := low][pos + 1 := high];
      forall p: Position | 2 * p.word + 1 < setup.size
        ensures GenAt(data[..], p) ==
                if Among(setup.h, setup.tweak, setup.size, key, n + 1, p) then current % 3 + 1
                    else Stored(Last(setup, before, p), current)
      {
        PutPair(t, q, nGeneration, p);
        AmongNext(setup.h, setup.tweak, setup.size, key, n, p);
      }
    }

    /** Keys of the last two generations, and of the current one, are always found. */
    method Contains(key: Key) returns (found: bool)
      requires Valid()
      ensures found <==> forall n: nat | n < setup.hashes ::
              GenAt(data[..], At(setup.h, setup.tweak, setup.size, key, n)) != 0
      ensures forall k: nat | |keys| - 2 * setup.perGeneration - nEntriesThisGeneration <= k < |keys| ::
              keys[k] == key ==> found
    {
      hide Shifted, Gen, Or, At, Remembers;
      var n := 0;
      found := true;
      while n < setup.hashes
        invariant 0 <= n <= setup.hashes
        invariant forall i: nat | i < n :: GenAt(data[..], At(setup.h, setup.tweak, setup.size, key, i)) != 0
      {
        var q := At(setup.h, setup.tweak, setup.size, key, n);
        EitherBit(data[2 * q.word], data[2 * q.word + 1], q.bit);
        if !Shifted(Or(data[2 * q.word], data[2 * q.word + 1]), q.bit) {
          found := false;
          break;
        }
        n := n + 1;
      }
      forall k: nat | |keys| - 2 * setup.perGeneration - nEntriesThisGeneration <= k < |keys| && keys[k] == key
        ensures found
      {
        if n < setup.hashes {
          KeyFound(setup, keys, data[..], k, n);
        }
      }
    }

    /** Forgets every key and starts over with another tweak. */
    method Reset(tweak: nat)
      requires Valid()
      modifies this, data
      ensures Valid() && keys == [] && setup == old(setup).(tweak := tweak)
    {
      setup := setup.(tweak := tweak);
      nEntriesThisGeneration, nGeneration, keys := 0, 1, [];
      var i := 0;
      while i < data.Length
        invariant 0 <= i <= data.Length && forall j | 0 <= j < i :: data[j] == 0
        modifies data
      {
        data[i] := 0;
        i := i + 1;
      }
      forall p: Position | 2 * p.word + 1 < setup.size
        ensures GenAt(data[..], p) == 0
      {
        NothingStored(p.bit);
      }
    }
  }

  lemma NothingStored(b: BitNo)
    ensures Gen(0, 0, b) == 0
  {
  }

  /** Whether the next key starts a generation. */
  lemma NextEpoch(s: Setup, keys: seq<Key>, key: Key, entries: nat)
    requires SetupOk(s) && entries == if keys == [] then 0 else (|keys| - 1) % s.perGeneration + 1
    ensures Current(s, keys + [key]) == Current(s, keys) + if entries == s.perGeneration then 1 else 0
    ensures |keys| % s.perGeneration == if entries == s.perGeneration then 0 else entries
  {
    if keys == [] {
      ModIs(0, s.perGeneration, 0, 0);
    } else {
      EpochSteps(s, |keys| - 1);
    }
  }

  lemma NextNumber(c: nat)
    ensures (c + 1) % 3 + 1 == if c % 3 + 1 == 3 then 1 else c % 3 + 2
  {
  }

  lemma KeepWriting(s: Setup, keys: seq<Key>, data: seq<bv64>)
    requires SetupOk(s) && |data| == s.size && Remembers(s, keys, data)
    ensures forall p: Position | 2 * p.word + 1 < s.size :: GenAt(data, p) == Stored(Last(s, keys, p), Current(s, keys))
  {
  }

  lemma StartWriting(s: Setup, keys: seq<Key>, data: seq<bv64>, current: nat, key: Key)
    requires SetupOk(s) && |data| == s.size
    requires forall p: Position | 2 * p.word + 1 < s.size :: GenAt(data, p) == Stored(Last(s, keys, p), current)
    ensures Writing(s, keys, data, current, key, 0)
  {
  }

  lemma EndWriting(s: Setup, keys: seq<Key>, data: seq<bv64>, current: nat, key: Key)
    requires SetupOk(s) && |data| == s.size && current == Current(s, keys + [key])
    requires Writing(s, keys, data, current, key, s.hashes)
    ensures Remembers(s, keys + [key], data)
  {
    hide GenAt, Among;
    assert (keys + [key])[..|keys|] == keys;
  }

  lemma KeyFound(s: Setup, keys: seq<Key>, data: seq<bv64>, k: nat, n: nat)
    requires SetupOk(s) && |data| == s.size && Remembers(s, keys, data) && n < s.hashes
    requires k < |keys| && |keys| - 2 * s.perGeneration - ((|keys| - 1) % s.perGeneration + 1) <= k
    ensures GenAt(data, At(s.h, s.tweak, s.size, keys[k], n)) != 0
  {
    hide GenAt, At, Last;
    var p := At(s.h, s.tweak, s.size, keys[k], n);
    assert Among(s.h, s.tweak, s.size, keys[k], s.hashes, p);
    LastAtLeast(s, keys, k, p);
    RecentEpoch(s, k, |keys|);
  }
}
