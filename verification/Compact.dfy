/** Compact difficulty targets and the work of a block (`arith_uint256::SetCompact`, `GetCompact`
    and `GetBlockProof`). */
module Compact {
  import opened Numbers
  import opened Limbs
  import opened BaseUint

  const WIDTH := 8
  const TWO24 := 0x100_0000
  const TWO23 := 0x80_0000

  // --- The format ---------------------------------------------------------------------------

  function Size(n: nat): nat { n / TWO24 }
  function Word(n: nat): nat { n % TWO23 }
  predicate Sign(n: nat) { n / TWO23 % 2 == 1 }

  /** A mantissa scaled by its exponent of base 256, counted in bytes of the number. */
  function Scaled(m: nat, e: nat): int {
    if e <= 3 then m / Pow2(8 * (3 - e)) else m * Pow2(8 * (e - 3))
  }

  /** The number a compact value denotes, without sign and without limit. */
  function Decoded(n: nat): int { Scaled(Word(n), Size(n)) }

  /** The three leading bytes of a number of `e` bytes. */
  function Leading(x: nat, e: nat): int {
    if e <= 3 then x * Pow2(8 * (3 - e)) else x / Pow2(8 * (e - 3))
  }

  function BitLength(x: nat): nat {
    if x == 0 then 0 else 1 + BitLength(x / 2)
  }

  /** The number of bytes of a number, with room for a sign bit. */
  function Exponent(x: nat): nat {
    if x == 0 then 0 else BitLength(x) / 8 + 1
  }

  function Encoded(x: nat, fNegative: bool): int {
    var m := Leading(x, Exponent(x));
    Exponent(x) * TWO24 + m + if fNegative && m != 0 then TWO23 else 0
  }

  // --- Bit lengths --------------------------------------------------------------------------

  lemma {:induction false} BitLengthBounds(x: nat)
    requires x > 0
    ensures BitLength(x) > 0 && Pow2(BitLength(x) - 1) <= x < Pow2(BitLength(x))
  {
    if x > 1 {
      BitLengthBounds(x / 2);
    }
  }

  lemma {:induction false} BitLengthIs(x: nat, n: nat)
    requires n > 0 && Pow2(n - 1) <= x < Pow2(n)
    ensures BitLength(x) == n
  {
    if n > 1 {
      BitLengthIs(x / 2, n - 1);
    }
  }

  lemma {:induction false} BitLengthMono(x: nat, y: nat)
    requires x <= y
    ensures BitLength(x) <= BitLength(y)
  {
    if x > 0 {
      BitLengthMono(x / 2, y / 2);
    }
  }

  // --- Leading bytes ------------------------------------------------------------------------

  lemma LeadingBelow(x: nat, e: nat, j: nat)
    requires j <= 24 && j <= 8 * e && x < Pow2(8 * e - j)
    ensures 0 <= Leading(x, e) < Pow2(24 - j)
  {
    hide Pow2;
    if e <= 3 {
      var p := Pow2(8 * (3 - e));
      Pow2Add(8 * e - j, 8 * (3 - e));
      MulMono(x + 1, Pow2(8 * e - j), p);
      MulMono(0, x, p);
      assert (x + 1) * p == x * p + p;
    } else {
      var p := Pow2(8 * (e - 3));
      Pow2Add(24 - j, 8 * (e - 3));
      DivBounds(x, p);
      QuotientBelow(x, x / p, p, Pow2(24 - j));
      DivAtMost(x, p);
    }
  }

  lemma LeadingAbove(x: nat, e: nat, j: nat)
    requires j <= 24 && j <= 8 * e && x >= Pow2(8 * e - j)
    ensures Leading(x, e) >= Pow2(24 - j)
  {
    hide Pow2;
    if e <= 3 {
      Pow2Add(8 * e - j, 8 * (3 - e));
      MulMono(Pow2(8 * e - j), x, Pow2(8 * (3 - e)));
    } else {
      var p := Pow2(8 * (e - 3));
      Pow2Add(24 - j, 8 * (e - 3));
      DivBounds(x, p);
      QuotientAbove(x, x / p, p, Pow2(24 - j));
    }
  }

  /** One byte less. */
  lemma LeadingNext(x: nat, e: nat)
    ensures Leading(x, e) / 256 == Leading(x, e + 1)
  {
    hide Pow2;
    Pow2At32();
    if e <= 2 {
      var p := Pow2(8 * (2 - e));
      Pow2Add(8 * (2 - e), 8);
      MulAssoc(x, p, 256);
      DivIs(x * p * 256, 256, x * p);
    } else if e == 3 {
      Pow2Zero();
    } else {
      Pow2Add(8 * (e - 3), 8);
      DivDiv(x, Pow2(8 * (e - 3)), 256);
    }
  }

  lemma DivDiv(x: nat, a: int, b: int)
    requires a > 0 && b > 0
    ensures a * b > 0 && x / a / b == x / (a * b)
  {
    var q := x / a;
    var r := q / b;
    DivBounds(x, a);
    DivBounds(q, b);
    MulMono(1, a, b);
    assert r * b <= q <= r * b + b - 1;
    MulMono(r * b, q, a);
    MulMono(q + 1, r * b + b, a);
    assert (q + 1) * a == q * a + a;
    assert (r * b + b) * a == r * b * a + b * a;
    MulAssoc(r, b, a);
    assert b * a == a * b;
    assert (r + 1) * (a * b) == r * (a * b) + a * b;
    DivIs(x, a * b, r);
  }

  /** The mantissa is 23 bits, and all of its leading bits are used. */
  lemma MantissaBounds(x: nat)
    ensures 0 <= Leading(x, Exponent(x)) < TWO23
    ensures x > 0 ==> Leading(x, Exponent(x)) >= 0x8000
  {
    hide BitLength, Pow2, Leading;
    Pow2At23();
    if x == 0 {
      LeadingOfZero(0);
    } else {
      BitLengthBounds(x);
      var e, b := Exponent(x), BitLength(x);
      Pow2Mono(b, 8 * e - 1);
      LeadingBelow(x, e, 1);
      if e == 1 {
        Pow2Zero();
        LeadingAbove(x, e, 8);
        Pow2Mono(15, 16);
      } else {
        Pow2Mono(8 * e - 9, b - 1);
        LeadingAbove(x, e, 9);
      }
    }
  }

  lemma LeadingOfZero(e: nat)
    ensures Leading(0, e) == 0
  {
    if e > 3 {
      DivIs(0, Pow2(8 * (e - 3)), 0);
    }
  }

  lemma Pow2At23()
    ensures Pow2(24) == TWO24 && Pow2(23) == TWO23 && Pow2(15) == 0x8000
  {
    Pow2At32();
    assert Pow2(24) == 2 * Pow2(23) && Pow2(16) == 2 * Pow2(15);
  }

  lemma EncodedParts(x: nat, fNegative: bool)
    ensures var n := Encoded(x, fNegative);
            var m := Leading(x, Exponent(x));
            n >= 0 && Size(n) == Exponent(x) && Word(n) == m && (Sign(n) <==> fNegative && m != 0)
  {
    hide BitLength, Leading, Exponent;
    MantissaBounds(x);
  }

  // --- Rounding -----------------------------------------------------------------------------

  /** The weight of the last bit of the mantissa, for numbers over three bytes. */
  function Unit(x: nat): nat {
    if Exponent(x) <= 3 then 1 else Pow2(8 * (Exponent(x) - 3))
  }

  /** What comes back from an encoded number. */
  function Rounded(x: nat): int {
    EncodedParts(x, false);
    Decoded(Encoded(x, false))
  }

  lemma RoundedIs(x: nat)
    ensures Rounded(x) == x / Unit(x) * Unit(x)
  {
    hide BitLength, Exponent, Pow2;
    EncodedParts(x, false);
    var e := Exponent(x);
    if e <= 3 {
      var p := Pow2(8 * (3 - e));
      MulMono(0, x, p);
      DivIs(x * p, p, x);
    } else {
      DivAtMost(x, Unit(x));
    }
  }

  /** Encoding rounds down by less than one unit. */
  lemma RoundedDown(x: nat)
    ensures 0 <= Rounded(x) <= x < Rounded(x) + Unit(x)
  {
    hide Rounded, Unit;
    RoundedIs(x);
    UnitPositive(x);
    DivBounds(x, Unit(x));
    DivAtMost(x, Unit(x));
    MulMono(0, x / Unit(x), Unit(x));
  }

  lemma UnitPositive(x: nat)
    ensures Unit(x) > 0
  {
  }

  /** Rounding keeps the length, so nonzero numbers stay nonzero. */
  lemma RoundedLength(x: nat)
    requires x > 0
    ensures Rounded(x) > 0 && BitLength(Rounded(x)) == BitLength(x) && Rounded(x) >= Pow2(BitLength(x) - 1)
  {
    hide Rounded, BitLength, Pow2;
    BitLengthBounds(x);
    RoundedDown(x);
    RoundedIs(x);
    UnitPositive(x);
    var b := BitLength(x);
    assert Pow2(b - 1) / Unit(x) * Unit(x) == Pow2(b - 1) by {
      Pow2Zero();
      if Exponent(x) > 3 {
        var k := 8 * (Exponent(x) - 3);
        Pow2Add(b - 1 - k, k);
        DivIs(Pow2(b - 1), Pow2(k), Pow2(b - 1 - k));
      }
    }
    DivMono(Pow2(b - 1), x, Unit(x));
    MulMono(Pow2(b - 1) / Unit(x), x / Unit(x), Unit(x));
    BitLengthIs(Rounded(x), b);
  }

  lemma DivMono(a: nat, b: nat, d: int)
    requires a <= b && d > 0
    ensures a / d <= b / d
  {
    DivBounds(a, d);
    DivBounds(b, d);
    QuotientAbove(b, b / d, d, a / d);
  }

  lemma RoundedMono(x: nat, y: nat)
    requires x <= y
    ensures Rounded(x) <= Rounded(y)
  {
    hide Rounded, BitLength, Unit, Pow2;
    RoundedDown(x);
    RoundedDown(y);
    BitLengthMono(x, y);
    if x > 0 {
      BitLengthBounds(x);
      RoundedLength(y);
      if BitLength(x) < BitLength(y) {
        Pow2Mono(BitLength(x), BitLength(y) - 1);
      } else {
        SameUnit(x, y);
        RoundedIs(x);
        RoundedIs(y);
        UnitPositive(x);
        DivMono(x, y, Unit(x));
        MulMono(x / Unit(x), y / Unit(x), Unit(x));
      }
    }
  }

  lemma SameUnit(x: nat, y: nat)
    requires x > 0 && y > 0 && BitLength(x) == BitLength(y)
    ensures Unit(x) == Unit(y) && Exponent(x) == Exponent(y)
  {
  }

  /** Encoding what comes back gives the same compact value. */
  lemma EncodeIdempotent(x: nat, fNegative: bool)
    ensures Rounded(x) >= 0 && Encoded(Rounded(x), fNegative) == Encoded(x, fNegative)
  {
    hide Rounded, BitLength, Pow2;
    RoundedDown(x);
    if x > 0 {
      RoundedLength(x);
      SameUnit(x, Rounded(x));
      RoundedIs(x);
      var u := Unit(x);
      UnitPositive(x);
      DivIs(x / u * u, u, x / u);
      Pow2Zero();
    }
  }

  /** A 256-bit number comes back without overflow and without a sign. */
  lemma EncodedRange(x: nat)
    requires x < Pow2(256)
    ensures 0 <= Encoded(x, false) < BASE && !Sign(Encoded(x, false)) && Rounded(x) < Pow2(256)
    ensures Exponent(x) <= 33
  {
    hide BitLength, Leading, Rounded, Pow2;
    EncodedParts(x, false);
    MantissaBounds(x);
    RoundedDown(x);
    if x > 0 {
      BitLengthBounds(x);
      if BitLength(x) > 256 {
        Pow2Mono(256, BitLength(x) - 1);
      }
    }
  }

  /** The guard that the decoder uses is exactly "does not fit into 256 bits". */
  predicate Overflows(w: nat, size: nat) {
    w != 0 && (size > 34 || (w > 0xff && size > 33) || (w > 0xffff && size > 32))
  }

  lemma OverflowIff(w: nat, size: nat)
    requires w < TWO23 && size > 3
    ensures Overflows(w, size) <==> w * Pow2(8 * (size - 3)) >= Pow2(256)
  {
    hide Pow2;
    Pow2At32();
    Pow2At23();
    var k := 8 * (size - 3);
    if w == 0 {
    } else if size > 34 {
      Pow2Mono(256, k);
      MulMono(1, w, Pow2(k));
    } else if size == 34 {
      Pow2Add(8, k);
      Compared(w, 256, Pow2(k));
    } else if size == 33 {
      Pow2Add(16, k);
      Compared(w, 65536, Pow2(k));
    } else {
      Pow2Add(23, k);
      Pow2Mono(23 + k, 255);
      Pow2Mono(255, 256);
      Compared(w, TWO23, Pow2(k));
    }
  }

  lemma Compared(w: int, limit: int, p: int)
    requires p > 0
    ensures w >= limit <==> w * p >= limit * p
  {
    if w >= limit {
      MulMono(limit, w, p);
    } else {
      MulMono(w + 1, limit, p);
      assert (w + 1) * p == w * p + p;
    }
  }

  // --- The operations -----------------------------------------------------------------------

  ghost predicate Is256(a: BaseUint) {
    a.Valid() && a.pn.Length == WIDTH
  }

  lemma Modulus256(a: BaseUint)
    requires Is256(a)
    ensures a.Modulus() == Pow2(256) && 0 <= a.Value() < Pow2(256)
  {
    hide Val, Weight, Pow2;
    WeightIsPow2(WIDTH);
    ValBound(a.pn[..]);
  }

  /** Decodes a compact value; overflow is exactly "does not fit", and the sign bit of zero is ignored. */
  method SetCompact(a: BaseUint, nCompact: nat) returns (fNegative: bool, fOverflow: bool)
    requires Is256(a) && nCompact < BASE
    modifies a.pn
    ensures Decoded(nCompact) >= 0 && a.Value() == Decoded(nCompact) % Pow2(256)
    ensures fNegative <==> Decoded(nCompact) != 0 && Sign(nCompact)
    ensures fOverflow <==> Decoded(nCompact) >= Pow2(256)
  {
    hide Pow2, Sign;
    Modulus256(a);
    var nSize := nCompact / TWO24;
    var nWord := nCompact % TWO23;
    ghost var w := nWord;
    if nSize <= 3 {
      DivAtMost(nWord, Pow2(8 * (3 - nSize)));
      nWord := nWord / Pow2(8 * (3 - nSize));
      a.Assign(nWord);
      SmallFits(nWord);
    } else {
      a.Assign(nWord);
      a.ShiftLeft(8 * (nSize - 3));
      OverflowIff(nWord, nSize);
      NonZeroProduct(nWord, Pow2(8 * (nSize - 3)));
    }
    fNegative := nWord != 0 && Sign(nCompact);
    fOverflow := nWord != 0 && (nSize > 34 || (nWord > 0xff && nSize > 33) || (nWord > 0xffff && nSize > 32));
  }

  lemma SmallFits(w: nat)
    requires w < TWO23
    ensures w < Pow2(256) && w % Pow2(256) == w
  {
    hide Pow2;
    Pow2At23();
    Pow2Mono(23, 256);
    SmallMod(w, Pow2(256));
  }

  lemma NonZeroProduct(w: nat, p: int)
    requires p > 0
    ensures 0 <= w * p && (w * p == 0 <==> w == 0)
  {
    if w > 0 {
      MulMono(1, w, p);
    }
  }

  /** The three leading bytes of a number of at most `nSize` bytes. */
  method LeadingBytes(a: BaseUint, nSize: nat) returns (r: nat)
    requires Is256(a) && nSize <= 32 && 0 <= a.Value() < Pow2(8 * nSize)
    ensures r == Leading(a.Value(), nSize)
  {
    hide Pow2, Val, Weight;
    ghost var x, y := a.Value(), Leading(a.Value(), nSize);
    LeadingBelow(x, nSize, 0);
    Pow2At32();
    SmallMod(y, BASE);
    SmallMod(y, TWO64);
    if nSize <= 3 {
      var low := a.GetLow64();
      Pow2Mono(8 * nSize, 24);
      SmallMod(x, TWO64);
      r := low * Pow2(8 * (3 - nSize)) % BASE;
    } else {
      var bn := new BaseUint.Copy(a);
      bn.ShiftRight(8 * (nSize - 3));
      var low := bn.GetLow64();
      r := low % BASE;
    }
  }

  method GetCompact(a: BaseUint, fNegative: bool) returns (r: nat)
    requires Is256(a)
    ensures a.Value() >= 0 && r == Encoded(a.Value(), fNegative) && r < BASE
  {
    hide Pow2, BitOr, TestBit, Leading, BitLength;
    Modulus256(a);
    ghost var x := a.Value();
    var bits := a.Bits();
    if bits > 0 {
      BitLengthIs(x, bits);
    }
    var nSize := (bits + 7) / 8;
    FirstBytes(x, bits, nSize);
    var nCompact := LeadingBytes(a, nSize);
    if TestBit(nCompact, 23) {
      LeadingNext(x, nSize);
      nCompact := nCompact / 256;
      nSize := nSize + 1;
    }
    MantissaBounds(x);
    assert nSize == Exponent(x) && nCompact < TWO23;
    assert nSize < 256;
    CombineParts(nCompact, nSize);
    nCompact := BitOr(nCompact, nSize * TWO24);
    if fNegative && nCompact % TWO23 != 0 {
      nCompact := BitOr(nCompact, TWO23);
    }
    return nCompact;
  }

  /** The bytes the encoder starts from: three bytes, the top bit set exactly when a sign bit needs
      another byte. */
  lemma FirstBytes(x: nat, bits: nat, size: nat)
    requires size == (bits + 7) / 8
    requires if x == 0 then bits == 0 else bits > 0 && Pow2(bits - 1) <= x < Pow2(bits) && BitLength(x) == bits
    ensures 0 <= Leading(x, size) < TWO24 && x < Pow2(8 * size)
    ensures Exponent(x) == if TestBit(Leading(x, size), 23) then size + 1 else size
  {
    hide Pow2, BitLength, TestBit, Leading;
    Pow2At23();
    Pow2Zero();
    if x == 0 {
      LeadingOfZero(0);
      TopBit(0, 23);
    } else {
      Pow2Mono(bits, 8 * size);
      LeadingBelow(x, size, 0);
      TopBit(Leading(x, size), 23);
      if bits == 8 * size {
        LeadingAbove(x, size, 1);
      } else {
        Pow2Mono(bits, 8 * size - 1);
        LeadingBelow(x, size, 1);
      }
    }
  }

  lemma CombineParts(m: nat, e: nat)
    requires m < TWO23
    ensures BitOr(m, e * TWO24) == m + e * TWO24
    ensures BitOr(m + e * TWO24, TWO23) == m + e * TWO24 + TWO23
  {
    hide Pow2, BitOr;
    Pow2At23();
    OrIsSum(m, e * TWO24, 24);
    SignClear(m, e);
    OrClearBit(m + e * TWO24, 23);
  }

  /** Setting a bit that is clear adds its weight. */
  lemma {:induction false} OrClearBit(x: nat, k: nat)
    requires !TestBit(x, k)
    ensures BitOr(x, Pow2(k)) == x + Pow2(k)
  {
    if x > 0 && k > 0 {
      var p := Pow2(k - 1);
      DivDiv(x, 2, p);
      OrClearBit(x / 2, k - 1);
    }
  }

  /** Bit 23 is clear above a mantissa and below an exponent. */
  lemma SignClear(m: nat, e: nat)
    requires m < TWO23
    ensures !TestBit(m + e * TWO24, 23)
  {
    hide Pow2;
    Pow2At23();
    DivIs(m + e * TWO24, TWO23, 2 * e);
  }

  // --- The work of a block ------------------------------------------------------------------

  /** Two to the 256 over the target plus one, rounded down; nothing for targets that do not count. */
  function Work(nBits: nat): int {
    var t := Decoded(nBits);
    if t <= 0 || t >= Pow2(256) || Sign(nBits) then 0 else Pow2(256) / (t + 1)
  }

  method GetBlockProof(nBits: nat) returns (r: BaseUint)
    requires nBits < BASE
    ensures Is256(r) && fresh(r) && fresh(r.pn) && r.Value() == Work(nBits)
  {
    hide Pow2, Decoded, Sign;
    var bnTarget := new BaseUint(WIDTH);
    var fNegative, fOverflow := SetCompact(bnTarget, nBits);
    var zero := new BaseUint(WIDTH);
    var c := bnTarget.CompareTo(zero);
    Modulus256(bnTarget);
    if fNegative || fOverflow || c == 0 {
      if !fOverflow {
        SmallMod(Decoded(nBits), Pow2(256));
      }
      return zero;
    }
    SmallMod(Decoded(nBits), Pow2(256));
    TargetBelowTop(nBits);
    r := ProofOf(bnTarget);
  }

  /** The complement over the target plus one, plus one. */
  method ProofOf(bnTarget: BaseUint) returns (r: BaseUint)
    requires Is256(bnTarget) && 0 < bnTarget.Value() && bnTarget.Value() + 1 < Pow2(256)
    ensures Is256(r) && fresh(r) && fresh(r.pn) && r.Value() == Pow2(256) / (bnTarget.Value() + 1)
  {
    hide Pow2, Val, Weight;
    ghost var t, m := bnTarget.Value(), Pow2(256);
    Modulus256(bnTarget);
    var divisor := new BaseUint.Copy(bnTarget);
    var one := new BaseUint(WIDTH);
    one.Assign(1);
    divisor.AddAssign(one);
    SmallMod(t + 1, m);
    WorkIs(m, t + 1);
    SmallMod(m / (t + 1), m);
    r := bnTarget.Complement();
    var ok := r.DivAssign(divisor);
    r.AddAssign(one);
  }

  /** No compact value denotes the largest number, so one can be added to a target. */
  lemma TargetBelowTop(nBits: nat)
    requires 0 <= Decoded(nBits) < Pow2(256)
    ensures Decoded(nBits) + 1 < Pow2(256)
  {
    hide Pow2;
    var w, e := Word(nBits), Size(nBits);
    Pow2At23();
    Pow2Mono(23, 255);
    Pow2Mono(255, 256);
    if e <= 3 {
      DivAtMost(w, Pow2(8 * (3 - e)));
    } else {
      var k := 8 * (e - 3);
      Pow2At32();
      if k > 248 {
        OverflowIff(w, e);
      } else {
        EvenSum(w, k);
      }
    }
  }

  lemma EvenSum(w: nat, k: nat)
    requires 8 <= k <= 248 && w * Pow2(k) < Pow2(256)
    ensures w * Pow2(k) + 1 < Pow2(256)
  {
    Pow2Add(256 - k, k);
    Compared(w, Pow2(256 - k), Pow2(k));
    MulMono(w + 1, Pow2(256 - k), Pow2(k));
    assert (w + 1) * Pow2(k) == w * Pow2(k) + Pow2(k);
    Pow2Mono(8, k);
    assert Pow2(8) == 256;
  }

  /** The complement over t, plus one, is the whole over t. */
  lemma WorkIs(m: int, d: int)
    requires 1 < d <= m
    ensures (m - 1 - (d - 1)) / d + 1 == m / d < m
  {
    DivPlus(m - d, d, 1);
    DivBounds(m, d);
    if m / d >= m {
      MulMono(m, m / d, d);
      MulMono(2, d, m);
    }
  }

  /** A higher target is less work. */
  lemma WorkAntitone(nBits: nat, nBits': nat)
    requires 0 < Decoded(nBits) <= Decoded(nBits') < Pow2(256) && !Sign(nBits) && !Sign(nBits')
    ensures Work(nBits) >= Work(nBits') > 0
  {
    hide Pow2, Decoded, Sign;
    var m, d, d' := Pow2(256), Decoded(nBits) + 1, Decoded(nBits') + 1;
    DivBounds(m, d);
    DivBounds(m, d');
    QuotientAbove(m, m / d', d', 1);
    MulMono(d, d', m / d');
    QuotientAbove(m, m / d, d, m / d');
  }
}
