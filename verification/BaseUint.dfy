/** Fixed-width unsigned integers as arrays of 32-bit limbs (`base_uint` in arith_uint256). */
module BaseUint {
  import opened Numbers
  import opened Limbs

  const TWO64 := BASE * BASE

  class BaseUint {
    const pn: array<Limb>

    ghost predicate Valid() {
      pn.Length >= 2
    }

    ghost function Value(): int
      reads pn
    {
      Val(pn[..])
    }

    /** Two to the number of bits. */
    ghost function Modulus(): int {
      Weight(pn.Length)
    }

    /** The other operand has the same width; two objects never share limbs. */
    ghost predicate Fits(b: BaseUint) {
      Valid() && b.pn.Length == pn.Length && (b == this || b.pn != pn)
    }

    constructor (width: nat)
      requires width >= 2
      ensures Valid() && pn.Length == width && Value() == 0 && fresh(pn)
    {
      pn := new Limb[width](_ => 0);
      new;
      ValZero(pn[..]);
    }

    constructor Copy(b: BaseUint)
      requires b.Valid()
      ensures Valid() && pn.Length == b.pn.Length && Value() == b.Value() && fresh(pn)
    {
      var limbs := new Limb[b.pn.Length];
      var i := 0;
      while i < b.pn.Length
        invariant 0 <= i <= b.pn.Length && limbs[..i] == b.pn[..i]
      {
        limbs[i] := b.pn[i];
        i := i + 1;
      }
      pn := limbs;
      new;
      assert pn[..] == b.pn[..];
    }

    method Assign(b: nat)
      requires Valid() && b < TWO64
      modifies pn
      ensures Value() == b
    {
      pn[0] := b % BASE;
      pn[1] := b / BASE;
      var i := 2;
      while i < pn.Length
        invariant 2 <= i <= pn.Length && pn[0] == b % BASE && pn[1] == b / BASE
        invariant forall j | 2 <= j < i :: pn[j] == 0
      {
        pn[i] := 0;
        i := i + 1;
      }
      ValSplit(pn[..], 2);
      ValZero(pn[..][2..]);
      ValNext(pn[..], 0);
      ValNext(pn[..], 1);
    }

    // --- Addition and subtraction -----------------------------------------------------------

    method AddAssign(b: BaseUint)
      requires Fits(b)
      modifies pn
      ensures Value() == (old(Value()) + old(b.Value())) % Modulus()
    {
      hide Weight, Val;
      ghost var x, y := pn[..], b.pn[..];
      ghost var w := Weight(pn.Length);
      var carry := 0;
      var i := 0;
      NoLimbs(x);
      NoLimbs(y);
      NoLimbs(pn[..]);
      while i < pn.Length
        invariant 0 <= i <= pn.Length && 0 <= carry <= 1
        invariant forall j | i <= j < pn.Length :: pn[j] == x[j] && b.pn[j] == y[j]
        invariant Val(pn[..i]) + carry * Weight(i) == Val(x[..i]) + Val(y[..i])
      {
        var n := carry + pn[i] + b.pn[i];
        CarryStep(n, i);
        AddStep(carry, x[i], y[i], Weight(i));
        ValNext(x, i);
        ValNext(y, i);
        ghost var done := pn[..i];
        pn[i] := n % BASE;
        carry := n / BASE;
        assert pn[..i] == done && pn[..i + 1] == done + [n % BASE];
        ValNext(pn[..], i);
        assert pn[..][..i] == done && pn[..][..i + 1] == pn[..i + 1];
        i := i + 1;
      }
      assert pn[..i] == pn[..] && x[..i] == x && y[..i] == y;
      ValBound(pn[..]);
      ModIs(Val(x) + Val(y), w, carry, Val(pn[..]));
    }

    method Increment()
      requires Valid()
      modifies pn
      ensures Value() == (old(Value()) + 1) % Modulus()
    {
      hide Weight, Val;
      ghost var x := pn[..];
      NoLimbs(x);
      ValBound(x);
      WeightOne();
      var i := 0;
      while i < pn.Length
        invariant 0 <= i <= pn.Length
        invariant Val(pn[..]) + Weight(i) == Val(x) + 1
        decreases pn.Length - i
      {
        ghost var y, before := pn[..], pn[i];
        var next: Limb := (pn[i] + 1) % BASE;
        ValUpdate(y, i, next);
        pn[i] := next;
        assert pn[..] == y[i := next];
        if pn[i] != 0 {
          ValBound(pn[..]);
          SmallMod(Val(x) + 1, Weight(pn.Length));
          return;
        }
        CarryAway(before, i);
        i := i + 1;
      }
      ValBound(pn[..]);
      ModIs(Val(x) + 1, Weight(pn.Length), 1, Val(pn[..]));
    }

    method Complement() returns (r: BaseUint)
      requires Valid()
      ensures fresh(r) && fresh(r.pn) && r.Valid() && r.pn.Length == pn.Length
      ensures r.Value() == Modulus() - 1 - Value()
    {
      hide Weight, Val;
      r := new BaseUint(pn.Length);
      var i := 0;
      WeightOne();
      NoLimbs(pn[..]);
      NoLimbs(r.pn[..]);
      while i < pn.Length
        invariant 0 <= i <= pn.Length && Val(r.pn[..i]) + Val(pn[..i]) == Weight(i) - 1
      {
        ghost var done := r.pn[..i];
        r.pn[i] := BASE - 1 - pn[i];
        assert r.pn[..][..i] == done && r.pn[..][..i + 1] == r.pn[..i + 1] && pn[..][..i + 1] == pn[..i + 1] &&
            pn[..][..i] == pn[..i];
        ValNext(r.pn[..], i);
        ValNext(pn[..], i);
        ComplementStep(pn[i], i);
        i := i + 1;
      }
      assert r.pn[..i] == r.pn[..] && pn[..i] == pn[..];
    }

    method Negate() returns (r: BaseUint)
      requires Valid()
      ensures fresh(r) && fresh(r.pn) && r.Valid() && r.pn.Length == pn.Length
      ensures r.Value() == -Value() % Modulus()
    {
      hide Weight, Val;
      r := Complement();
      r.Increment();
      ValBound(pn[..]);
      NegMod(Value(), Modulus());
    }

    method SubAssign(b: BaseUint)
      requires Fits(b)
      modifies pn
      ensures Value() == (old(Value()) - old(b.Value())) % Modulus()
    {
      hide Weight, Val;
      var minus := b.Negate();
      ghost var x, y := Value(), b.Value();
      AddAssign(minus);
      AddMod(x, -y, Modulus());
    }

    // --- Multiplication ---------------------------------------------------------------------

    method MulAssign32(b32: nat)
      requires Valid() && b32 < BASE
      modifies pn
      ensures Value() == old(Value()) * b32 % Modulus()
    {
      hide Weight, Val;
      ghost var x := pn[..];
      var carry := 0;
      var i := 0;
      NoLimbs(x);
      NoLimbs(pn[..]);
      while i < pn.Length
        invariant 0 <= i <= pn.Length && 0 <= carry < BASE
        invariant forall j | i <= j < pn.Length :: pn[j] == x[j]
        invariant Val(pn[..i]) + carry * Weight(i) == Val(x[..i]) * b32
      {
        RowBound(carry, 0, b32, pn[i]);
        var n := carry + b32 * pn[i];
        CarryStep(n, i);
        MulStep(Val(x[..i]), x[i], b32, carry, Weight(i));
        ValNext(x, i);
        ghost var done := pn[..i];
        pn[i] := n % BASE;
        carry := n / BASE;
        assert pn[..][..i] == done == pn[..i] && pn[..][..i + 1] == pn[..i + 1];
        ValNext(pn[..], i);
        i := i + 1;
      }
      assert pn[..i] == pn[..] && x[..i] == x;
      ValBound(pn[..]);
      ModIs(Val(x) * b32, Weight(pn.Length), carry, Val(pn[..]));
    }

    /** One row: adds x times the limbs of b, `j` limbs up, dropping what overflows. When b is the object
        itself and zero it stays zero. */
    method AddRow(j: nat, x: Limb, b: BaseUint) returns (ghost carry': int)
      requires Fits(b) && j < pn.Length
      modifies pn
      ensures b != this ==> Value() + carry' * Modulus() == old(Value()) + x * Val(b.pn[..pn.Length - j]) * Weight(j)
      ensures b == this && old(AllZero(pn[..])) ==> AllZero(pn[..])
    {
      hide Weight, Val;
      ghost var y, low := pn[..], pn[..j];
      var carry := 0;
      var i := 0;
      RowStarts(y, b.pn[..], j);
      while i + j < pn.Length
        invariant 0 <= i <= pn.Length - j && 0 <= carry < BASE
        invariant pn[..j] == low && forall k | i + j <= k < pn.Length :: pn[k] == y[k]
        invariant b != this ==> Val(pn[j..i + j]) + carry * Weight(i) == Val(y[j..i + j]) + x * Val(b.pn[..i])
        invariant b == this && AllZero(y) ==> carry == 0 && AllZero(pn[..])
      {
        RowBound(carry, pn[i + j], x, b.pn[i]);
        ghost var limb, done := b.pn[i], pn[j..i + j];
        var n := carry + pn[i + j] + x * b.pn[i];
        if b != this {
          RowStep(carry, y[i + j], x, Val(b.pn[..i]), limb, Weight(i));
          RowParts(y, b.pn[..], i, j);
        } else if AllZero(y) {
          ZeroRow(carry, pn[i + j], x, limb);
        }
        CarryStep(n, i);
        pn[i + j] := n % BASE;
        carry := n / BASE;
        assert pn[j..][..i] == done && pn[j..][..i + 1] == pn[j..i + j + 1];
        ValNext(pn[j..], i);
        i := i + 1;
      }
      carry' := carry;
      if b != this {
        ValSplit(pn[..], j);
        ValSplit(y, j);
        assert pn[..][j..] == pn[j..i + j] && y[j..] == y[j..i + j] && pn[..][..j] == low;
        WeightAdd(i, j);
        RowEnd(Val(pn[j..i + j]), carry, Val(y[j..]), x * Val(b.pn[..i]), Weight(i), Weight(j));
      }
    }

    /** The product, unless the right operand is the object itself: it is cleared before it is read, so the
        rows add nothing. */
    method MulAssign(b: BaseUint)
      requires Fits(b)
      modifies pn
      ensures Value() == if b == this then 0 else old(Value()) * old(b.Value()) % Modulus()
    {
      hide Weight, Val;
      var a := new BaseUint.Copy(this);
      ghost var x, y, w := Value(), b.pn[..], Weight(pn.Length);
      Assign(0);
      OnlyZero(pn[..]);
      ghost var q := 0;
      var j := 0;
      NoLimbs(a.pn[..]);
      while j < pn.Length
        invariant 0 <= j <= pn.Length && a.Value() == x
        invariant b == this ==> AllZero(pn[..])
        invariant b != this ==> b.pn[..] == y && Value() + q * w == Val(a.pn[..j]) * Val(y)
      {
        ghost var carry := AddRow(j, a.pn[j], b);
        if b != this {
          assert b.pn[..pn.Length - j] == y[..pn.Length - j];
          ValNext(a.pn[..], j);
          assert a.pn[..][..j] == a.pn[..j] && a.pn[..][..j + 1] == a.pn[..j + 1];
          q := q + carry + a.pn[j] * Val(y[pn.Length - j..]);
          ProductStep(Val(a.pn[..j]), a.pn[j], y, j);
          AddStep(q - carry - a.pn[j] * Val(y[pn.Length - j..]), carry, a.pn[j] * Val(y[pn.Length - j..]), w);
        }
        j := j + 1;
      }
      if b == this {
        ValZero(pn[..]);
      } else {
        assert a.pn[..j] == a.pn[..];
        ValBound(pn[..]);
        ModIs(x * Val(y), w, q, Value());
      }
    }

    // --- Shifts -----------------------------------------------------------------------------

    method ShiftLeft(amount: nat)
      requires Valid()
      modifies pn
      ensures Value() == old(Value()) * Pow2(amount) % Modulus()
    {
      hide Weight, Val, Pow2, Or, Low, High, ShlInv;
      var a := new BaseUint.Copy(this);
      ghost var x := a.pn[..];
      Clear();
      var k, shift := amount / 32, amount % 32;
      ghost var c: int := 0;
      var i := 0;
      ShlStart(x, k, shift, pn[..]);
      while i < pn.Length
        invariant 0 <= i <= pn.Length && a.pn[..] == x
        invariant ShlInv(x, k, shift, i, pn[..], c)
      {
        ghost var s := pn[..];
        ShlKeeps(x, k, shift, i, s, c);
        c := if i + k < |x| then High(x[i], shift) else c;
        if i + k + 1 < pn.Length && shift != 0 {
          pn[i + k + 1] := Or(pn[i + k + 1], High(a.pn[i], shift));
        }
        if i + k < pn.Length {
          pn[i + k] := Or(pn[i + k], Low(a.pn[i], shift));
        }
        assert pn[..] == ShlNext(x, k, shift, i, s);
        i := i + 1;
      }
      ValBound(pn[..]);
      ShlEnd(x, k, shift, pn[..], c);
      assert amount == shift + 32 * k;
    }

    method ShiftRight(amount: nat)
      requires Valid()
      modifies pn
      ensures Value() == old(Value()) / Pow2(amount)
    {
      hide Weight, Val, Pow2, Or, Low, Down, ShrInv;
      var a := new BaseUint.Copy(this);
      ghost var x := a.pn[..];
      Clear();
      var k, shift := amount / 32, amount % 32;
      var i := 0;
      ShrStart(x, k, shift, pn[..]);
      while i < pn.Length
        invariant 0 <= i <= pn.Length && a.pn[..] == x
        invariant ShrInv(x, k, shift, i, pn[..])
      {
        ghost var s := pn[..];
        ShrKeeps(x, k, shift, i, s);
        if i - k - 1 >= 0 && shift != 0 {
          pn[i - k - 1] := Or(pn[i - k - 1], Low(a.pn[i], 32 - shift));
        }
        if i - k >= 0 {
          pn[i - k] := Or(pn[i - k], Down(a.pn[i], shift));
        }
        assert pn[..] == ShrNext(x, k, shift, i, s);
        i := i + 1;
      }
      ShrEnd(x, k, shift, pn[..]);
      assert amount == shift + 32 * k;
    }

    method Clear()
      requires Valid()
      modifies pn
      ensures Value() == 0 && forall j | 0 <= j < pn.Length :: pn[j] == 0
    {
      var i := 0;
      while i < pn.Length
        invariant 0 <= i <= pn.Length && forall j | 0 <= j < i :: pn[j] == 0
      {
        pn[i] := 0;
        i := i + 1;
      }
      ValZero(pn[..]);
    }

    // --- Comparison, bits and division ------------------------------------------------------

    method CompareTo(b: BaseUint) returns (r: int)
      requires b.pn.Length == pn.Length
      ensures r == if Value() < b.Value() then -1 else if Value() > b.Value() then 1 else 0
    {
      hide Val;
      ghost var x, y := pn[..], b.pn[..];
      var i := pn.Length - 1;
      while i >= 0
        invariant -1 <= i < pn.Length && forall j | i < j < |x| :: x[j] == y[j]
      {
        assert pn[i] == x[i] && b.pn[i] == y[i];
        if pn[i] < b.pn[i] {
          ValLess(x, y, i);
          return -1;
        }
        if pn[i] > b.pn[i] {
          ValLess(y, x, i);
          return 1;
        }
        i := i - 1;
      }
      assert x == y;
      return 0;
    }

    /** The position of the highest bit set plus one, or zero. */
    method Bits() returns (r: nat)
      requires Valid()
      ensures r <= 32 * pn.Length
      ensures if Value() == 0 then r == 0 else r > 0 && Pow2(r - 1) <= Value() < Pow2(r)
    {
      hide Val, Weight, Pow2, TestBit;
      Pow2Zero();
      Pow2At32();
      ghost var v := pn[..];
      var pos := pn.Length - 1;
      assert pn[..pos + 1] == v;
      while pos >= 0
        invariant -1 <= pos < pn.Length && Val(pn[..pos + 1]) == Val(v)
      {
        if pn[pos] != 0 {
          var nbits := 31;
          while nbits > 0
            invariant 0 <= nbits <= 31 && 1 <= pn[pos] < Pow2(nbits + 1)
          {
            TopBit(pn[pos], nbits);
            if TestBit(pn[pos], nbits) {
              break;
            }
            nbits := nbits - 1;
          }
          TopLimb(pn[..pos + 1], nbits);
          return 32 * pos + nbits + 1;
        }
        assert pn[..pos + 1][..pos] == pn[..pos];
        ZeroTop(pn[..pos + 1]);
        pos := pos - 1;
      }
      NoLimbs(v);
      assert pn[..0] == v[..0];
      return 0;
    }

    method GetLow64() returns (r: nat)
      requires Valid()
      ensures r == Value() % TWO64
    {
      r := pn[0] + pn[1] * BASE;
      Low64(pn[..]);
    }

    /** Sets bit `n`, which was clear like all below it. */
    method SetBit(n: nat)
      requires Valid() && n < 32 * pn.Length && Value() % Pow2(n + 1) == 0
      modifies pn
      ensures Value() == old(Value()) + Pow2(n)
    {
      hide Val, Weight, Pow2, Or;
      ghost var s := pn[..];
      var bit := BitAt(n % 32);
      BitFree(s, n);
      ValUpdate(s, n / 32, Or(pn[n / 32], bit));
      pn[n / 32] := Or(pn[n / 32], bit);
      assert pn[..] == s[n / 32 := Or(s[n / 32], bit)];
    }

    /** One step of the division: subtracts the aligned divisor if it fits, and halves it. */
    method DivStep(num: BaseUint, div: BaseUint, shift: nat, ghost d: int)
      requires num.Fits(div) && Fits(num) && Fits(div) && num != div && num != this && div != this
      requires shift < 32 * pn.Length && div.Value() == d * Pow2(shift)
      requires 0 <= num.Value() < d * Pow2(shift + 1) && Value() % Pow2(shift + 1) == 0
      modifies pn, num.pn, div.pn
      ensures 0 <= num.Value() < d * Pow2(shift) && Value() * d + num.Value() == old(Value()) * d + old(num.Value())
      ensures Value() % Pow2(shift) == 0
      ensures shift > 0 ==> div.Value() == d * Pow2(shift - 1)
    {
      hide Val, Weight, Pow2;
      ghost var q, r := Value(), num.Value();
      DoubleUp(d, shift);
      var c := num.CompareTo(div);
      if c >= 0 {
        ValBound(num.pn[..]);
        ValBound(div.pn[..]);
        SmallMod(r - d * Pow2(shift), Modulus());
        num.SubAssign(div);
        SetBit(shift);
      }
      QuotientStep(q, d, shift);
      div.ShiftRight(1);
      HalveDown(d, shift);
    }

    /** Shift-and-subtract division: the floor of the quotient, or nothing but a cleared number when
        the divisor is zero. */
    method DivAssign(b: BaseUint) returns (ok: bool)
      requires Fits(b)
      modifies pn
      ensures ok <==> old(b.Value()) != 0
      ensures Value() == if ok then old(Value()) / old(b.Value()) else 0
    {
      hide Val, Weight, Pow2;
      ghost var n, d := Value(), b.Value();
      var div := new BaseUint.Copy(b);
      var num := new BaseUint.Copy(this);
      Clear();
      var numBits := num.Bits();
      var divBits := div.Bits();
      ValBound(num.pn[..]);
      ValBound(div.pn[..]);
      if divBits == 0 {
        return false;
      }
      ok := true;
      if divBits > numBits {
        TooLarge(n, d, numBits, divBits);
        return;
      }
      var shift: int := numBits - divBits;
      AlignedFits(n, d, numBits, divBits, pn.Length);
      div.ShiftLeft(shift);
      SmallMod(d * Pow2(shift), Modulus());
      ZeroDiv(Pow2(shift + 1));
      while shift >= 0
        invariant -1 <= shift < 32 * pn.Length
        invariant shift >= 0 ==> div.Value() == d * Pow2(shift)
        invariant 0 <= num.Value() < d * Pow2(shift + 1) && Value() * d + num.Value() == n
        invariant Value() % Pow2(shift + 1) == 0
        invariant fresh(div.pn) && fresh(num.pn) && div.pn != num.pn && div.pn != pn && num.pn != pn
        invariant div.Valid() && num.Valid() && div.pn.Length == num.pn.Length == pn.Length
      {
        DivStep(num, div, shift, d);
        shift := shift - 1;
      }
      Pow2Zero();
      ModIs(n, d, Value(), num.Value());
    }
  }

  // --- Steps of the loops -------------------------------------------------------------------

  lemma NoLimbs(s: seq<Limb>)
    ensures Val(s[..0]) == 0
  {
  }

  lemma WeightOne()
    ensures Weight(0) == 1
  {
  }

  lemma AddStep(carry: int, x: int, y: int, w: int)
    ensures (carry + x + y) * w == carry * w + x * w + y * w
  {
  }

  lemma SmallMod(n: int, d: int)
    requires 0 <= n < d
    ensures n % d == n
  {
  }

  /** A limb that wraps to zero carries one. */
  lemma CarryAway(before: Limb, i: nat)
    requires (before + 1) % BASE == 0
    ensures (0 - before) * Weight(i) + Weight(i + 1) == Weight(i)
  {
    Difference(0, before, Weight(i));
  }

  lemma ComplementStep(x: Limb, i: nat)
    ensures (BASE - 1 - x) * Weight(i) + x * Weight(i) + Weight(i) == Weight(i + 1)
  {
    Difference(BASE - 1, x, Weight(i));
  }

  lemma NegMod(x: int, m: int)
    requires 0 <= x < m
    ensures (m - 1 - x + 1) % m == -x % m
  {
    if x == 0 {
      ModIs(m, m, 1, 0);
    } else {
      ModIs(-x, m, -1, m - x);
    }
  }

  lemma AddMod(x: int, y: int, m: int)
    requires m > 0
    ensures (x + y % m) % m == (x + y) % m
  {
    var q, r := y / m, y % m;
    var k := (x + r) / m;
    assert x + r == k * m + (x + r) % m && y == q * m + r;
    assert x + y == (k + q) * m + (x + r) % m;
    ModIs(x + y, m, k + q, (x + r) % m);
  }

  lemma RowBound(carry: int, p: Limb, x: Limb, y: Limb)
    requires 0 <= carry < BASE
    ensures 0 <= carry + p + x * y < BASE * BASE && 0 <= (carry + p + x * y) / BASE < BASE
  {
    MulMono(x, BASE - 1, y);
    MulMono(0, x, y);
    DivBounds(carry + p + x * y, BASE);
  }

  lemma MulStep(v: int, x: int, b: int, carry: int, w: int)
    ensures (v + x * w) * b + carry * w == v * b + (carry + b * x) * w
  {
    assert (v + x * w) * b == v * b + x * w * b == v * b + b * x * w;
  }

  lemma RowStep(carry: int, p: int, x: int, v: int, y: int, w: int)
    ensures (carry + p + x * y) * w + x * v == carry * w + p * w + x * (v + y * w)
  {
    assert x * (v + y * w) == x * v + x * y * w;
  }

  lemma RowStarts(y: seq<Limb>, b: seq<Limb>, j: nat)
    requires j <= |y|
    ensures Val(y[j..j]) == 0 && Val(b[..0]) == 0
  {
    NoLimbs(b);
    NoLimbs([]);
    assert y[j..j] == [] == [][..0];
  }

  lemma RowParts(y: seq<Limb>, b: seq<Limb>, i: nat, j: nat)
    requires i + j < |y| && i < |b|
    ensures Val(b[..i + 1]) == Val(b[..i]) + b[i] * Weight(i)
    ensures Val(y[j..i + j + 1]) == Val(y[j..i + j]) + y[i + j] * Weight(i)
  {
    hide Weight, Val;
    ValNext(b, i);
    ValNext(y[j..], i);
    assert y[j..][..i] == y[j..i + j] && y[j..][..i + 1] == y[j..i + j + 1];
  }

  lemma ZeroRow(carry: int, limb: int, x: int, b: int)
    requires carry == 0 && limb == 0 && b == 0
    ensures carry + limb + x * b == 0
  {
  }

  predicate AllZero(s: seq<Limb>) {
    forall k | 0 <= k < |s| :: s[k] == 0
  }

  lemma {:induction false} OnlyZero(s: seq<Limb>)
    requires Val(s) == 0
    ensures AllZero(s)
  {
    if s != [] {
      var n := |s| - 1;
      assert s[..n + 1] == s;
      ValNext(s, n);
      ValBound(s[..n]);
      ZeroParts(Val(s[..n]), s[n], Weight(n));
      OnlyZero(s[..n]);
    }
  }

  lemma ZeroParts(low: int, limb: int, w: int)
    requires low >= 0 && limb >= 0 && w > 0 && low + limb * w == 0
    ensures low == 0 && limb == 0
  {
  }

  lemma RowEnd(r: int, carry: int, y: int, add: int, wi: int, wj: int)
    requires r + carry * wi == y + add
    ensures r * wj + carry * (wi * wj) == y * wj + add * wj
  {
    Spread(r, carry, wi, wj);
  }

  lemma ProductStep(v: int, x: int, y: seq<Limb>, j: nat)
    requires j < |y|
    ensures (v + x * Weight(j)) * Val(y) ==
            v * Val(y) + x * Val(y[..|y| - j]) * Weight(j) + x * Val(y[|y| - j..]) * Weight(|y|)
  {
    hide Weight, Val;
    ValSplit(y, |y| - j);
    WeightAdd(|y| - j, j);
    Product4(v, x, Weight(j), Val(y[..|y| - j]), Val(y[|y| - j..]), Weight(|y| - j));
  }

  lemma Product4(v: int, x: int, w: int, low: int, high: int, u: int)
    ensures (v + x * w) * (low + high * u) == v * (low + high * u) + x * low * w + x * high * (u * w)
  {
    var t := low + high * u;
    assert (v + x * w) * t == v * t + x * w * t;
    assert x * w * t == x * w * low + x * w * (high * u);
    assert x * w * low == x * low * w;
    MulAssoc(x * w, high, u);
    assert x * w * high == x * high * w;
    MulAssoc(x * high, w, u);
    assert w * u == u * w;
  }

  /** How many limbs have been shifted into range, and how far they reach. */
  function Reached(i: nat, k: nat, width: nat): (r: nat)
    ensures r <= width
  {
    if i + k <= width then i else if k <= width then width - k else 0
  }

  function Top(i: nat, k: nat, width: nat): (r: nat)
    ensures r <= width
  {
    if i + k <= width then i + k else width
  }

  /** The limbs written so far and the carry above them are the limbs read, shifted. */
  ghost predicate ShlInv(x: seq<Limb>, k: nat, shift: nat, i: nat, s: seq<Limb>, c: int) {
    var width := |x|;
    && |s| == width && 0 <= c < Pow2(shift)
    && (forall j | i + k < j < width :: s[j] == 0)
    && (i + k < width ==> s[i + k] == c)
    && Val(s[..Top(i, k, width)]) + c * Weight(Top(i, k, width)) ==
        Val(x[..Reached(i, k, width)]) * (Pow2(shift) * Weight(k))
  }

  function ShlNext(x: seq<Limb>, k: nat, shift: nat, i: nat, s: seq<Limb>): (t: seq<Limb>)
    requires i < |x| == |s| && shift < 32
    ensures |t| == |s|
  {
    var t := if i + k + 1 < |s| && shift != 0 then s[i + k + 1 := Or(s[i + k + 1], High(x[i], shift))] else s;
    if i + k < |s| then t[i + k := Or(t[i + k], Low(x[i], shift))] else t
  }

  lemma ShlStart(x: seq<Limb>, k: nat, shift: nat, zeros: seq<Limb>)
    requires |zeros| == |x| && forall j | 0 <= j < |zeros| :: zeros[j] == 0
    ensures ShlInv(x, k, shift, 0, zeros, 0)
  {
    ValZero(zeros[..Top(0, k, |x|)]);
  }

  lemma ShlKeeps(x: seq<Limb>, k: nat, shift: nat, i: nat, s: seq<Limb>, c: int)
    requires shift < 32 && ShlInv(x, k, shift, i, s, c) && i < |x|
    ensures ShlInv(x, k, shift, i + 1, ShlNext(x, k, shift, i, s), if i + k < |x| then High(x[i], shift) else c)
  {
    hide Weight, Val, Pow2, Low, High, BitOr;
    var t := ShlNext(x, k, shift, i, s);
    if i + k < |x| {
      ShlStep(x, i, k, shift, Val(s[..i + k]), c);
      Pow2Zero();
      assert t[..i + k] == s[..i + k];
      ValNext(t, i + k);
    }
  }

  lemma Pow2Zero()
    ensures Pow2(0) == 1
  {
  }

  /** The part of a shifted limb that stays, and the part that moves to the next limb. */
  function Low(x: Limb, shift: nat): Limb {
    x * Pow2(shift) % BASE
  }

  function High(x: Limb, shift: nat): Limb
    requires shift < 32
  {
    Down(x, 32 - shift)
  }

  function Down(x: Limb, shift: nat): Limb {
    DivAtMost(x, Pow2(shift));
    x / Pow2(shift)
  }

  lemma LimbShift(x: Limb, shift: nat)
    requires shift < 32
    ensures 0 <= High(x, shift) < Pow2(shift) && Low(x, shift) % Pow2(shift) == 0 && Low(x, shift) + Pow2(shift) <= BASE
    ensures x * Pow2(shift) == High(x, shift) * BASE + Low(x, shift)
  {
    hide Pow2;
    var p, u := Pow2(shift), Pow2(32 - shift);
    Pow2At32();
    Pow2Add(shift, 32 - shift);
    DivBounds(x, u);
    LimbParts(x, x / u, x - x / u * u, u, p);
  }

  lemma LimbParts(x: int, q: int, r: int, u: int, p: int)
    requires p > 0 && u > 0 && p * u == BASE && x == q * u + r && 0 <= r < u && 0 <= x < BASE
    ensures x * p == q * BASE + r * p && 0 <= q < p
    ensures x * p % BASE == r * p && r * p % p == 0 && r * p + p <= BASE
  {
    ShiftedParts(q, r, u, p);
    MulMono(r + 1, u, p);
    MulMono(0, r, p);
    ModIs(x * p, BASE, q, r * p);
    ModIs(r * p, p, r, 0);
    if q >= p {
      MulMono(p, q, u);
    }
    if q < 0 {
      MulMono(q + 1, 0, u);
    }
  }

  lemma ShiftedParts(q: int, r: int, u: int, p: int)
    ensures (q * u + r) * p == q * (p * u) + r * p
  {
    MulAssoc(q, u, p);
    assert u * p == p * u;
  }

  lemma ShlStep(x: seq<Limb>, i: nat, k: nat, shift: nat, low: int, c: int)
    requires i + k < |x| && shift < 32 && 0 <= c < Pow2(shift)
    requires low + c * Weight(i + k) == Val(x[..i]) * (Pow2(shift) * Weight(k))
    ensures var l, h := Low(x[i], shift), High(x[i], shift);
            && BitOr(c, l) == c + l < BASE
            && BitOr(0, h) == h < Pow2(shift)
            && low + (c + l) * Weight(i + k) + h * Weight(i + k + 1) == Val(x[..i + 1]) * (Pow2(shift) * Weight(k))
  {
    hide Weight, Val, Pow2, Low, High;
    var l, h := Low(x[i], shift), High(x[i], shift);
    LimbShift(x[i], shift);
    OrIsSum(c, l, shift);
    ValNext(x, i);
    WeightAdd(i, k);
    WeightNext(i + k);
    ShlSum(low, c, l, h, x[i], Pow2(shift), Val(x[..i]), Weight(i), Weight(k));
  }

  lemma WeightNext(i: nat)
    ensures Weight(i + 1) == Weight(i) * BASE
  {
  }

  lemma ShlSum(low: int, c: int, l: int, h: int, x: int, p: int, v: int, wi: int, wk: int)
    requires low + c * (wi * wk) == v * (p * wk) && x * p == h * BASE + l
    ensures low + (c + l) * (wi * wk) + h * (wi * wk * BASE) == (v + x * wi) * (p * wk)
  {
    var w := wi * wk;
    assert (c + l) * w == c * w + l * w;
    assert (h * BASE + l) * w == h * (w * BASE) + l * w;
    assert (v + x * wi) * (p * wk) == v * (p * wk) + x * wi * (p * wk);
    Swap4(x, p, wi, wk);
  }

  lemma Swap4(a: int, b: int, c: int, d: int)
    ensures a * b * (c * d) == a * c * (b * d)
  {
    MulAssoc(a * b, c, d);
    MulAssoc(a * c, b, d);
    assert a * b * c == a * c * b by {
      MulAssoc(a, b, c);
      MulAssoc(a, c, b);
    }
  }

  lemma ShlEnd(x: seq<Limb>, k: nat, shift: nat, s: seq<Limb>, c: int)
    requires ShlInv(x, k, shift, |x|, s, c)
    ensures Val(s) == Val(x) * Pow2(shift + 32 * k) % Weight(|x|)
  {
    hide Val, Weight, Pow2;
    var n, p, v := |x|, Pow2(shift), Val(s);
    assert s[..n] == s && Top(n, k, n) == n;
    ValBound(s);
    Pow2Add(shift, 32 * k);
    WeightIsPow2(k);
    if k <= n {
      ValSplit(x, n - k);
      WeightAdd(n - k, k);
      var high := Val(x[n - k..]);
      ShlTail(Val(x[..n - k]), high, Weight(n - k), p, Weight(k));
      assert Reached(n, k, n) == n - k;
      Difference(high * p, -c, Weight(n));
      ModIs(Val(x) * (p * Weight(k)), Weight(n), high * p + c, v);
    } else {
      WeightAdd(k - n, n);
      assert x[..0] == [];
      NoLimbs(x);
      assert v + c * Weight(n) == 0;
      MulAssoc(p, Weight(k - n), Weight(n));
      MulAssoc(Val(x), p * Weight(k - n), Weight(n));
      Difference(Val(x) * (p * Weight(k - n)), -c, Weight(n));
      ModIs(Val(x) * (p * Weight(k)), Weight(n), Val(x) * (p * Weight(k - n)) + c, v);
    }
  }

  lemma ShlTail(low: int, high: int, u: int, p: int, wk: int)
    ensures (low + high * u) * (p * wk) == low * (p * wk) + high * p * (u * wk)
  {
    assert (low + high * u) * (p * wk) == low * (p * wk) + high * u * (p * wk);
    Swap4(high, u, p, wk);
  }

  /** The limbs written so far are the limbs read, shifted down. */
  ghost predicate ShrInv(x: seq<Limb>, k: nat, shift: nat, i: nat, s: seq<Limb>) {
    && |s| == |x| && i <= |x|
    && (forall j | 0 <= j < |x| && i - k <= j :: s[j] == 0)
    && (i > k ==> s[i - k - 1] == Down(x[i - 1], shift))
    && Val(s) == Val(x[..i]) / (Pow2(shift) * Weight(k))
  }

  function ShrNext(x: seq<Limb>, k: nat, shift: nat, i: nat, s: seq<Limb>): (t: seq<Limb>)
    requires i < |x| == |s| && shift < 32
    ensures |t| == |s|
  {
    var t := if i - k - 1 >= 0 && shift != 0 then s[i - k - 1 := Or(s[i - k - 1], Low(x[i], 32 - shift))] else s;
    if i - k >= 0 then t[i - k := Or(t[i - k], Down(x[i], shift))] else t
  }

  lemma ShrStart(x: seq<Limb>, k: nat, shift: nat, zeros: seq<Limb>)
    requires |zeros| == |x| && forall j | 0 <= j < |zeros| :: zeros[j] == 0
    ensures ShrInv(x, k, shift, 0, zeros)
  {
    ValZero(zeros);
    MulMono(1, Pow2(shift), Weight(k));
    DivIs(0, Pow2(shift) * Weight(k), 0);
  }

  lemma ShrKeeps(x: seq<Limb>, k: nat, shift: nat, i: nat, s: seq<Limb>)
    requires shift < 32 && ShrInv(x, k, shift, i, s) && i < |x|
    ensures ShrInv(x, k, shift, i + 1, ShrNext(x, k, shift, i, s))
  {
    hide Weight, Val, Pow2, Low, Down;
    ValNext(x, i);
    if i < k {
      ShrBelow(x, i + 1, k, shift);
      ShrBelow(x, i, k, shift);
    } else if i == k {
      ShrBelow(x, i, k, shift);
      ShrFirst(x, k, shift);
      ShrUpdateFirst(s, Down(x[i], shift));
    } else {
      ShrDivide(x, i, k, shift);
      ShrUpdate(s, i - k - 1, x[i - 1], x[i], shift);
    }
  }

  /** Limbs below the shift leave nothing. */
  lemma ShrBelow(x: seq<Limb>, i: nat, k: nat, shift: nat)
    requires i <= k && i <= |x|
    ensures Val(x[..i]) / (Pow2(shift) * Weight(k)) == 0
  {
    hide Val, Weight, Pow2;
    ValBound(x[..i]);
    WeightMono(i, k);
    MulMono(1, Pow2(shift), Weight(k));
    DivIs(Val(x[..i]), Pow2(shift) * Weight(k), 0);
  }

  lemma {:induction false} WeightMono(i: nat, k: nat)
    requires i <= k
    ensures Weight(i) <= Weight(k)
    decreases k
  {
    if i < k {
      WeightMono(i, k - 1);
    }
  }

  lemma ShrFirst(x: seq<Limb>, k: nat, shift: nat)
    requires k < |x|
    ensures (Val(x[..k]) + x[k] * Weight(k)) / (Pow2(shift) * Weight(k)) == Down(x[k], shift)
  {
    hide Val, Weight, Pow2;
    ValBound(x[..k]);
    DivBounds(x[k], Pow2(shift));
    FirstQuotient(Val(x[..k]), x[k], Down(x[k], shift), Pow2(shift), Weight(k));
  }

  lemma FirstQuotient(v: int, x: int, q: int, p: int, w: int)
    requires 0 <= v < w && p > 0 && q * p <= x < q * p + p
    ensures p * w > 0 && (v + x * w) / (p * w) == q
  {
    MulMono(1, p, w);
    MulMono(q * p, x, w);
    MulMono(x + 1, q * p + p, w);
    MulAssoc(q, p, w);
    assert (q * p + p) * w == q * p * w + p * w;
    assert (q + 1) * (p * w) == q * (p * w) + p * w;
    assert (x + 1) * w == x * w + w;
    DivIs(v + x * w, p * w, q);
  }

  /** A whole limb above the shift adds a whole number of units. */
  lemma ShrDivide(x: seq<Limb>, i: nat, k: nat, shift: nat)
    requires k < i < |x| && shift < 32
    ensures (Val(x[..i]) + x[i] * Weight(i)) / (Pow2(shift) * Weight(k)) ==
            Val(x[..i]) / (Pow2(shift) * Weight(k)) + x[i] * Pow2(32 - shift) * Weight(i - k - 1)
  {
    hide Val, Weight, Pow2;
    var p, u, m := Pow2(shift), Pow2(32 - shift), i - k - 1;
    Pow2At32();
    Pow2Add(shift, 32 - shift);
    WeightNext(m);
    WeightAdd(m + 1, k);
    MulMono(1, p, Weight(k));
    assert Weight(i) == Weight(m) * (p * u) * Weight(k);
    Regroup(x[i], Weight(m), p, u, Weight(k));
    DivPlus(Val(x[..i]), p * Weight(k), x[i] * u * Weight(m));
  }

  lemma Regroup(x: int, w: int, p: int, u: int, v: int)
    ensures x * (w * (p * u) * v) == x * u * w * (p * v)
  {
    calc {
      x * (w * (p * u) * v);
      { MulAssoc(w, p * u, v); MulAssoc(p, u, v);
          assert p * (u * v) == u * (p * v) by { MulAssoc(p, u, v); MulAssoc(u, p, v); } }
      x * (w * (u * (p * v)));
      { MulAssoc(x, w, u * (p * v)); MulAssoc(x * w, u, p * v); }
      x * w * u * (p * v);
      { MulAssoc(x, w, u); MulAssoc(x, u, w); }
      x * u * w * (p * v);
    }
  }

  lemma DivPlus(n: int, d: int, q: int)
    requires d > 0
    ensures (n + q * d) / d == n / d + q
  {
    assert n == n / d * d + n % d;
    assert (n / d + q) * d == n / d * d + q * d;
    ModIs(n + q * d, d, n / d + q, n % d);
  }

  lemma ShrUpdateFirst(s: seq<Limb>, y: Limb)
    requires |s| > 0 && forall j | 0 <= j < |s| :: s[j] == 0
    ensures Val(s[0 := Or(s[0], y)]) == y
  {
    ValZero(s);
    ValUpdate(s, 0, y);
  }

  lemma ShrUpdate(s: seq<Limb>, m: nat, before: Limb, x: Limb, shift: nat)
    requires m + 1 < |s| && shift < 32 && s[m] == Down(before, shift) && s[m + 1] == 0
    ensures var t := if shift != 0 then s[m := Or(s[m], Low(x, 32 - shift))] else s;
            Val(t[m + 1 := Or(t[m + 1], Down(x, shift))]) == Val(s) + x * Pow2(32 - shift) * Weight(m)
  {
    hide Weight, Val, Pow2, Low, Down;
    WeightNext(m);
    var d := Down(x, shift);
    if shift == 0 {
      DownZero(x);
      ValUpdate(s, m + 1, d);
      Pow2At32();
      assert x * Weight(m + 1) == x * BASE * Weight(m);
    } else {
      var l := Low(x, 32 - shift);
      LimbShift(x, 32 - shift);
      DownBound(before, shift);
      OrIsSum(s[m], l, 32 - shift);
      var t := s[m := Or(s[m], l)];
      ValUpdate(s, m, Or(s[m], l));
      ValUpdate(t, m + 1, d);
      HighIsDown(x, shift);
      Spread(l, d, BASE, Weight(m));
      assert x * Pow2(32 - shift) == l + d * BASE;
    }
  }

  lemma DownZero(x: Limb)
    ensures Down(x, 0) == x
  {
  }

  lemma HighIsDown(x: Limb, shift: nat)
    requires 0 < shift < 32
    ensures High(x, 32 - shift) == Down(x, shift)
  {
  }

  lemma DownBound(x: Limb, shift: nat)
    requires 0 < shift < 32
    ensures 0 <= Down(x, shift) < Pow2(32 - shift)
  {
    hide Low, Pow2;
    LimbShift(x, 32 - shift);
  }

  lemma ShrEnd(x: seq<Limb>, k: nat, shift: nat, s: seq<Limb>)
    requires ShrInv(x, k, shift, |x|, s)
    ensures Val(s) == Val(x) / Pow2(shift + 32 * k)
  {
    assert x[..|x|] == x;
    Pow2Add(shift, 32 * k);
    WeightIsPow2(k);
  }

  function BitAt(k: nat): (r: Limb)
    requires k < 32
    ensures r == Pow2(k)
  {
    Pow2At32();
    Pow2Mono(k, 32);
    Pow2(k)
  }

  lemma ZeroTop(s: seq<Limb>)
    requires |s| > 0 && s[|s| - 1] == 0
    ensures Val(s) == Val(s[..|s| - 1])
  {
  }

  /** The highest bit of the highest limb. */
  lemma TopLimb(s: seq<Limb>, nbits: nat)
    requires |s| > 0 && nbits <= 31 && Pow2(nbits) <= s[|s| - 1] < Pow2(nbits + 1)
    ensures Pow2(32 * (|s| - 1) + nbits) <= Val(s) < Pow2(32 * (|s| - 1) + nbits + 1) && Val(s) != 0
  {
    hide Weight, Pow2;
    var n := |s| - 1;
    ValBound(s[..n]);
    WeightIsPow2(n);
    Pow2Add(nbits, 32 * n);
    Pow2Add(nbits + 1, 32 * n);
    MulMono(Pow2(nbits), s[n], Weight(n));
    MulMono(s[n] as int + 1, Pow2(nbits + 1), Weight(n));
    assert (s[n] as int + 1) * Weight(n) == s[n] * Weight(n) + Weight(n);
  }

  lemma Low64(s: seq<Limb>)
    requires |s| >= 2
    ensures Val(s) % TWO64 == s[0] + s[1] * BASE
  {
    ValSplit(s, 2);
    ValNext(s, 0);
    ValNext(s, 1);
    assert Weight(1) == Weight(0) * BASE && Weight(2) == Weight(1) * BASE;
    ModIs(Val(s), TWO64, Val(s[2..]), s[0] + s[1] * BASE);
  }

  /** When all bits up to the n-th are clear, setting the n-th adds its weight. */
  lemma BitFree(s: seq<Limb>, n: nat)
    requires n < 32 * |s| && Val(s) % Pow2(n + 1) == 0
    ensures var i, bit := n / 32, BitAt(n % 32);
            (Or(s[i], bit) - s[i]) * Weight(i) == Pow2(n)
  {
    hide Val, Weight, Pow2, BitOr;
    var i, k := n / 32, n % 32;
    ValSplit(s, i);
    var t := s[i..];
    ValSplit(t, 1);
    ValNext(t, 0);
    WeightIsPow2(i);
    WeightIsPow2(1);
    Pow2Add(k, 32 * i);
    Pow2Add(k + 1, 32 * i);
    Pow2Add(k + 1, 31 - k);
    Pow2Zero();
    WeightOne();
    assert t[..0] == [];
    NoLimbs(t);
    ValBound(s[..i]);
    LowerBits(Val(s), Val(s[..i]), Val(t), Weight(i), Pow2(k + 1));
    LimbBits(Val(t), t[0], Val(t[1..]), Pow2(k + 1), Pow2(31 - k));
    Pow2Mono(k, k + 1);
    OrIsSum(BitAt(k), s[i], k + 1);
  }

  /** A multiple of p * w, seen above weight w, is a multiple of p. */
  lemma LowerBits(v: int, low: int, high: int, w: int, p: int)
    requires v == low + high * w && 0 <= low < w && p > 0 && v % (p * w) == 0
    ensures high % p == 0
  {
    var q := v / (p * w);
    assert v == q * (p * w);
    MulAssoc(q, p, w);
    ModIs(v, w, q * p, 0);
    ModIs(v, w, high, low);
    ModIs(high, p, q, 0);
  }

  lemma LimbBits(v: int, x: int, rest: int, p: int, u: int)
    requires v == x + rest * (p * u) && p > 0 && v % p == 0
    ensures x % p == 0
  {
    var q := v / p;
    assert v == q * p;
    MulAssoc(rest, p, u);
    assert rest * p * u == rest * u * p;
    Difference(q, rest * u, p);
    ModIs(x, p, q - rest * u, 0);
  }

  /** A divisor with more bits leaves a quotient of zero. */
  lemma TooLarge(n: int, d: int, numBits: nat, divBits: nat)
    requires numBits < divBits && 0 <= n && d > 0 && Pow2(divBits - 1) <= d
    requires if n == 0 then numBits == 0 else numBits > 0 && n < Pow2(numBits)
    ensures n / d == 0
  {
    Pow2Mono(numBits, divBits - 1);
    DivIs(n, d, 0);
  }

  /** The aligned divisor fits, and its double exceeds the number. */
  lemma AlignedFits(n: int, d: int, numBits: nat, divBits: nat, width: nat)
    requires 0 < divBits <= numBits <= 32 * width && Pow2(divBits - 1) <= d < Pow2(divBits) && n < Pow2(numBits)
    ensures 0 <= d * Pow2(numBits - divBits) < Weight(width)
    ensures n < d * Pow2(numBits - divBits + 1)
  {
    hide Pow2;
    var shift := numBits - divBits;
    WeightIsPow2(width);
    Pow2Add(divBits, shift);
    Pow2Add(divBits - 1, shift + 1);
    Pow2Mono(numBits, 32 * width);
    MulMono(d + 1, Pow2(divBits), Pow2(shift));
    assert (d + 1) * Pow2(shift) == d * Pow2(shift) + Pow2(shift);
    MulMono(Pow2(divBits - 1), d, Pow2(shift + 1));
    MulMono(0, d, Pow2(shift));
  }

  lemma ZeroDiv(d: int)
    requires d > 0
    ensures 0 % d == 0
  {
  }

  lemma DoubleUp(d: int, shift: nat)
    ensures d * Pow2(shift + 1) == d * Pow2(shift) + d * Pow2(shift)
  {
    assert Pow2(shift + 1) == 2 * Pow2(shift);
  }

  lemma HalveDown(d: int, shift: nat)
    ensures Pow2(1) == 2
    ensures shift > 0 ==> d * Pow2(shift) / 2 == d * Pow2(shift - 1)
  {
    if shift > 0 {
      DoubleUp(d, shift - 1);
    }
  }

  /** The quotient stays a multiple of the next smaller power, with or without the new bit. */
  lemma QuotientStep(q: int, d: int, shift: nat)
    requires q % Pow2(shift + 1) == 0
    ensures q % Pow2(shift) == 0 && (q + Pow2(shift)) % Pow2(shift) == 0
    ensures (q + Pow2(shift)) * d == q * d + d * Pow2(shift)
  {
    var p: int := Pow2(shift);
    assert Pow2(shift + 1) == 2 * p;
    var k := q / (2 * p);
    assert q == k * (2 * p);
    Multiples(q, k, p);
    Difference(q, -p, d);
  }

  lemma Multiples(q: int, k: int, p: int)
    requires p > 0 && q == k * (2 * p)
    ensures q % p == 0 && (q + p) % p == 0
  {
    MulAssoc(k, 2, p);
    ModIs(q, p, 2 * k, 0);
    Difference(2 * k, -1, p);
    ModIs(q + p, p, 2 * k + 1, 0);
  }
}
