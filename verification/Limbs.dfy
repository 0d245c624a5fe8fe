/** Numbers as sequences of 32-bit limbs, least significant first. */
module Limbs {
  import opened Numbers

  const BASE := 0x1_0000_0000

  type Limb = x: int | 0 <= x < BASE

  /** The weight of limb `i`. */
  function Weight(i: nat): (w: int)
    ensures w > 0
  {
    if i == 0 then 1 else Weight(i - 1) * BASE
  }

  function Val(s: seq<Limb>): int {
    if s == [] then 0 else Val(s[..|s| - 1]) + s[|s| - 1] * Weight(|s| - 1)
  }

  // --- Powers of two ------------------------------------------------------------------------

  lemma Pow2At32()
    ensures Pow2(8) == 256 && Pow2(16) == 65536 && Pow2(24) == 0x100_0000 && Pow2(32) == BASE
  {
    assert Pow2(8) == 256;
    Pow2Add(8, 8);
    Pow2Add(16, 8);
    Pow2Add(16, 16);
  }

  lemma {:induction false} WeightIsPow2(i: nat)
    ensures Weight(i) == Pow2(32 * i)
  {
    if i > 0 {
      WeightIsPow2(i - 1);
      Pow2At32();
      Pow2Add(32 * (i - 1), 32);
    }
  }

  lemma {:induction false} WeightAdd(i: nat, j: nat)
    ensures Weight(i + j) == Weight(i) * Weight(j)
  {
    if j > 0 {
      WeightAdd(i, j - 1);
      MulAssoc(Weight(i), Weight(j - 1), BASE);
    }
  }

  // --- Values -------------------------------------------------------------------------------

  /** The first i + 1 limbs. */
  lemma ValNext(s: seq<Limb>, i: nat)
    requires i < |s|
    ensures Val(s[..i + 1]) == Val(s[..i]) + s[i] * Weight(i)
  {
    assert s[..i + 1][..i] == s[..i];
  }

  lemma {:induction false} ValBound(s: seq<Limb>)
    ensures 0 <= Val(s) < Weight(|s|)
  {
    if s != [] {
      var n := |s| - 1;
      ValBound(s[..n]);
      Digit(Val(s[..n]), s[n], Weight(n), BASE);
    }
  }

  /** A digit above a smaller number. */
  lemma Digit(low: int, x: int, w: int, limit: int)
    requires 0 <= low < w && 0 <= x < limit
    ensures 0 <= low + x * w < w * limit
  {
    MulMono(x + 1, limit, w);
    MulMono(0, x, w);
  }

  lemma {:induction false} ValSplit(s: seq<Limb>, k: nat)
    requires k <= |s|
    ensures Val(s) == Val(s[..k]) + Val(s[k..]) * Weight(k)
  {
    if k == |s| {
      assert s[..k] == s;
    } else {
      var n := |s| - 1;
      var t := s[k..];
      ValSplit(s[..n], k);
      assert s[..n][..k] == s[..k] && s[..n][k..] == t[..n - k];
      WeightAdd(n - k, k);
      Spread(Val(t[..n - k]), s[n], Weight(n - k), Weight(k));
    }
  }

  lemma Spread(a: int, x: int, w: int, v: int)
    ensures (a + x * w) * v == a * v + x * (w * v)
  {
    MulAssoc(x, w, v);
  }

  lemma {:induction false} ValZero(s: seq<Limb>)
    requires forall i | 0 <= i < |s| :: s[i] == 0
    ensures Val(s) == 0
  {
    if s != [] {
      ValZero(s[..|s| - 1]);
    }
  }

  /** The first limb that differs, from the top, decides. */
  lemma ValLess(a: seq<Limb>, b: seq<Limb>, i: nat)
    requires |a| == |b| && i < |a| && a[i + 1..] == b[i + 1..] && a[i] < b[i]
    ensures Val(a) < Val(b)
  {
    hide Val, Weight;
    ValSplit(a, i + 1);
    ValSplit(b, i + 1);
    ValNext(a, i);
    ValNext(b, i);
    ValBound(a[..i]);
    ValBound(b[..i]);
    DigitLess(Val(a[..i]), Val(b[..i]), a[i], b[i], Weight(i));
  }

  lemma DigitLess(low: int, low': int, x: int, x': int, w: int)
    requires 0 <= low < w && 0 <= low' && x < x'
    ensures low + x * w < low' + x' * w
  {
    MulMono(x + 1, x', w);
  }

  /** Writing one limb. */
  lemma ValUpdate(s: seq<Limb>, i: nat, x: Limb)
    requires i < |s|
    ensures Val(s[i := x]) == Val(s) + (x - s[i]) * Weight(i)
  {
    hide Val, Weight;
    var t := s[i := x];
    ValSplit(s, i + 1);
    ValSplit(t, i + 1);
    ValNext(s, i);
    ValNext(t, i);
    assert t[..i] == s[..i] && t[i + 1..] == s[i + 1..];
    Difference(x, s[i], Weight(i));
  }

  /** One step of a carry chain. */
  lemma CarryStep(n: nat, i: nat)
    ensures n * Weight(i) == n % BASE * Weight(i) + n / BASE * Weight(i + 1)
  {
    Spread(n % BASE, n / BASE, BASE, Weight(i));
    assert n == n % BASE + n / BASE * BASE;
  }

  // --- Bits ---------------------------------------------------------------------------------

  function BitOr(x: nat, y: nat): nat {
    if x == 0 then y
    else if y == 0 then x
    else 2 * BitOr(x / 2, y / 2) + if x % 2 == 1 || y % 2 == 1 then 1 else 0
  }

  predicate TestBit(x: nat, n: nat) {
    x / Pow2(n) % 2 == 1
  }

  lemma {:induction false} OrBound(x: nat, y: nat, n: nat)
    requires x < Pow2(n) && y < Pow2(n)
    ensures BitOr(x, y) < Pow2(n)
  {
    if x != 0 && y != 0 {
      OrBound(x / 2, y / 2, n - 1);
    }
  }

  function Or(x: Limb, y: Limb): (r: Limb)
    ensures r == BitOr(x, y)
  {
    Pow2At32();
    OrBound(x, y, 32);
    BitOr(x, y)
  }

  /** Without a common bit, or is a sum. */
  lemma {:induction false} OrIsSum(x: nat, y: nat, s: nat)
    requires x < Pow2(s) && y % Pow2(s) == 0
    ensures BitOr(x, y) == BitOr(y, x) == x + y
  {
    if x != 0 && y != 0 {
      var h := y / Pow2(s);
      assert y == h * (2 * Pow2(s - 1)) == 2 * (h * Pow2(s - 1));
      assert y / 2 == h * Pow2(s - 1) + 0;
      ModIs(y / 2, Pow2(s - 1), h, 0);
      OrIsSum(x / 2, y / 2, s - 1);
    }
  }

  /** The top bit of a number known to fit. */
  lemma TopBit(x: nat, n: nat)
    requires x < Pow2(n + 1)
    ensures TestBit(x, n) <==> x >= Pow2(n)
  {
    if x >= Pow2(n) {
      DivIs(x, Pow2(n), 1);
    } else {
      DivIs(x, Pow2(n), 0);
    }
  }
}
