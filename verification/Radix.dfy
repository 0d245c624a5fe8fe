/** Numbers as big-endian digit strings, and the in-place "multiply and add" that changes base. */
module Radix {
  import opened Numbers

  function Pow(b: nat, n: nat): nat {
    if n == 0 then 1 else Pow(b, n - 1) * b
  }

  predicate Digits(s: seq<nat>, b: nat) {
    forall i | 0 <= i < |s| :: s[i] < b
  }

  function Val(s: seq<nat>, b: nat): nat {
    if s == [] then 0 else Val(s[..|s| - 1], b) * b + s[|s| - 1]
  }

  /** The digits of a number without leading zeros. */
  function Minimal(n: nat, b: nat): seq<nat>
    requires b > 1
  {
    if n == 0 then []
    else
      Shrinks(n, b);
      Minimal(n / b, b) + [n % b]
  }

  lemma {:induction false} MinimalOk(n: nat, b: nat)
    requires b > 1
    ensures Digits(Minimal(n, b), b) && Val(Minimal(n, b), b) == n && (Minimal(n, b) != [] ==> Minimal(n, b)[0] != 0)
  {
    hide Val;
    if n == 0 {
      ValEmpty(b);
    } else {
      Shrinks(n, b);
      MinimalOk(n / b, b);
      ValAppend(Minimal(n / b, b), n % b, b);
      Parts(n, b);
      if n / b == 0 {
        assert Minimal(0, b) == [];
      }
    }
  }

  lemma ValEmpty(b: nat)
    ensures Val([], b) == 0
  {
  }

  lemma ValAppend(s: seq<nat>, x: nat, b: nat)
    ensures Val(s + [x], b) == Val(s, b) * b + x
  {
    assert (s + [x])[..|s|] == s;
  }

  lemma Parts(n: nat, b: nat)
    requires b > 1
    ensures n == n / b * b + n % b && 0 <= n % b < b && (n / b == 0 ==> n % b == n)
  {
    DivAtMost(n, b);
  }

  lemma Shrinks(n: nat, b: nat)
    requires n > 0 && b > 1
    ensures 0 <= n / b < n
  {
    DivBounds(n, b);
    DivAtMost(n, b);
    if n / b >= n {
      MulMono(2, b, n);
    }
  }

  // --- Powers -------------------------------------------------------------------------------

  lemma {:induction false} PowPositive(b: nat, n: nat)
    requires b > 0
    ensures Pow(b, n) > 0
  {
    if n > 0 {
      PowPositive(b, n - 1);
      MulMono(1, b, Pow(b, n - 1));
    }
  }

  lemma {:induction false} PowAdd(b: nat, m: nat, n: nat)
    ensures Pow(b, m + n) == Pow(b, m) * Pow(b, n)
  {
    if n > 0 {
      PowAdd(b, m, n - 1);
      MulAssoc(Pow(b, m), Pow(b, n - 1), b);
    }
  }

  lemma {:induction false} PowMul(b: nat, m: nat, n: nat)
    ensures m * n >= 0 && Pow(Pow(b, m), n) == Pow(b, m * n)
  {
    if n > 0 {
      PowMul(b, m, n - 1);
      assert m * n == m * (n - 1) + m;
      PowAdd(b, m * (n - 1), m);
    }
  }

  lemma PowSwap(b: nat, m: nat, n: nat)
    ensures Pow(Pow(b, m), n) == Pow(Pow(b, n), m)
  {
    hide Pow;
    PowMul(b, m, n);
    PowMul(b, n, m);
    assert m * n == n * m;
  }

  lemma {:induction false} PowMonoBase(a: nat, b: nat, n: nat)
    requires a <= b
    ensures Pow(a, n) <= Pow(b, n)
  {
    if n > 0 {
      PowMonoBase(a, b, n - 1);
      MulMono(Pow(a, n - 1), Pow(b, n - 1), a);
      MulMono(a, b, Pow(b, n - 1));
    }
  }

  lemma {:induction false} PowStrictBase(a: nat, b: nat, n: nat)
    requires a < b && n > 0
    ensures Pow(a, n) < Pow(b, n)
  {
    PowMonoBase(a, b, n - 1);
    PowPositive(b, n - 1);
    MulMono(Pow(a, n - 1), Pow(b, n - 1), a);
    MulMono(a + 1, b, Pow(b, n - 1));
    assert Pow(b, n - 1) * (a + 1) == Pow(b, n - 1) * a + Pow(b, n - 1);
  }

  lemma {:induction false} PowMonoExp(b: nat, m: nat, n: nat)
    requires b > 0 && m <= n
    ensures Pow(b, m) <= Pow(b, n)
    decreases n
  {
    if m < n {
      PowMonoExp(b, m, n - 1);
      MulMono(1, b, Pow(b, n - 1));
    }
  }

  /** If a^q <= b^p then a^n <= b^s whenever p/q <= s/n. */
  lemma PowCompare(a: nat, b: nat, p: nat, q: nat, n: nat, s: nat)
    requires b > 0 && q > 0 && Pow(a, q) <= Pow(b, p) && 0 <= p * n <= q * s
    ensures Pow(a, n) <= Pow(b, s)
  {
    hide Pow;
    var e, f := p * n, q * s;
    PowSwap(a, q, n);
    PowMonoBase(Pow(a, q), Pow(b, p), n);
    PowProduct(b, p, n, e);
    PowMonoExp(b, e, f);
    PowProduct(b, q, s, f);
    PowSwap(b, q, s);
    if Pow(b, s) < Pow(a, n) {
      PowStrictBase(Pow(b, s), Pow(a, n), q);
    }
  }

  lemma PowProduct(b: nat, m: nat, n: nat, e: nat)
    requires e == m * n
    ensures Pow(Pow(b, m), n) == Pow(b, e)
  {
    PowMul(b, m, n);
  }

  // --- Values -------------------------------------------------------------------------------

  lemma {:induction false} ValConcat(s: seq<nat>, t: seq<nat>, b: nat)
    ensures Val(s + t, b) == Val(s, b) * Pow(b, |t|) + Val(t, b)
  {
    if t == [] {
      assert s + t == s;
    } else {
      var n := |t| - 1;
      ValConcat(s, t[..n], b);
      assert (s + t)[..|s| + n] == s + t[..n];
      Regroup(Val(s, b), Pow(b, n), b, Val(t[..n], b));
    }
  }

  lemma Regroup(v: int, p: int, b: int, w: int)
    ensures (v * p + w) * b == v * (p * b) + w * b
  {
    MulAssoc(v, p, b);
  }

  lemma {:induction false} ValBound(s: seq<nat>, b: nat)
    requires b > 0 && Digits(s, b)
    ensures Val(s, b) < Pow(b, |s|)
  {
    if s != [] {
      var n := |s| - 1;
      ValBound(s[..n], b);
      MulMono(Val(s[..n], b) + 1, Pow(b, n), b);
      assert (Val(s[..n], b) + 1) * b == Val(s[..n], b) * b + b;
    }
  }

  lemma {:induction false} ValZeros(s: seq<nat>, b: nat)
    requires forall i | 0 <= i < |s| :: s[i] == 0
    ensures Val(s, b) == 0
  {
    if s != [] {
      ValZeros(s[..|s| - 1], b);
    }
  }

  /** Leading zeros do not count. */
  lemma ValLeading(s: seq<nat>, t: seq<nat>, b: nat)
    requires forall i | 0 <= i < |s| :: s[i] == 0
    ensures Val(s + t, b) == Val(t, b)
  {
    ValConcat(s, t, b);
    ValZeros(s, b);
  }

  lemma ValFront(s: seq<nat>, b: nat)
    requires s != []
    ensures Val(s, b) == s[0] * Pow(b, |s| - 1) + Val(s[1..], b)
  {
    assert s == [s[0]] + s[1..];
    ValConcat([s[0]], s[1..], b);
    assert [s[0]][..0] == [];
    assert Val([s[0]], b) == s[0];
  }

  /** Digits without leading zeros are the digits of their value. */
  lemma {:induction false} MinimalIs(s: seq<nat>, b: nat)
    requires b > 1 && Digits(s, b) && (s != [] ==> s[0] != 0)
    ensures s == Minimal(Val(s, b), b)
  {
    hide Val, Pow;
    if s == [] {
      ValEmpty(b);
    } else {
      var n := |s| - 1;
      var front := s[..n];
      MinimalIs(front, b);
      assert s == front + [s[n]];
      ValAppend(front, s[n], b);
      LastDigit(Val(front, b), s[n], b);
      FirstDigit(s, b);
    }
  }

  lemma LastDigit(v: nat, x: nat, b: nat)
    requires b > 1 && x < b
    ensures (v * b + x) / b == v && (v * b + x) % b == x
  {
    var n := v * b + x;
    assert (v + 1) * b == v * b + b;
    DivIs(n, b, v);
    Parts(n, b);
  }

  lemma FirstDigit(s: seq<nat>, b: nat)
    requires b > 1 && s != [] && s[0] != 0
    ensures Val(s, b) > 0
  {
    hide Val, Pow;
    ValFront(s, b);
    PowPositive(b, |s| - 1);
    MulMono(1, s[0], Pow(b, |s| - 1));
  }

  // --- Changing base ------------------------------------------------------------------------

  lemma CarryStep(carry: nat, x: nat, from: nat, to: nat, p: nat, v: nat)
    requires to > 1
    ensures var c := carry + from * x;
            c / to >= 0 && c / to * (p * to) + (c % to) * p + v * from == carry * p + (x * p + v) * from
  {
    var c := carry + from * x;
    DivAtMost(c, to);
    assert c == c / to * to + c % to;
    Regroup2(c / to, to, c % to, p);
    assert c * p == carry * p + from * x * p;
    MulAssoc(from, x, p);
    assert (x * p + v) * from == from * (x * p) + v * from;
  }

  lemma Regroup2(q: int, b: int, r: int, p: int)
    ensures (q * b + r) * p == q * (p * b) + r * p
  {
    MulAssoc(q, b, p);
    assert b * p == p * b;
  }

  lemma NoCarry(carry: nat, p: nat, v: nat, total: nat)
    requires carry * p + v == total < p
    ensures carry == 0
  {
    if carry > 0 {
      MulMono(1, carry, p);
    }
  }

  /** Replaces the number in the buffer, of which the last `length` digits are in use, by itself
      times `from` plus a digit. The buffer is large enough, so no carry is left over. */
  method MulAdd(buf: array<nat>, length: nat, from: nat, to: nat, digit: nat) returns (length': nat)
    requires to > 1 && length <= buf.Length && Digits(buf[..], to)
    requires forall k | 0 <= k < buf.Length - length :: buf[k] == 0
    requires Val(buf[..], to) * from + digit < Pow(to, buf.Length)
    modifies buf
    ensures length' <= buf.Length && Digits(buf[..], to)
    ensures forall k | 0 <= k < buf.Length - length' :: buf[k] == 0
    ensures Val(buf[..], to) == old(Val(buf[..], to)) * from + digit
  {
    hide Val, Pow, Digits, Partly;
    ghost var s := buf[..];
    var carry: nat, i := digit, 0;
    PartlyStarts(s, from, to, digit);
    while (carry != 0 || i < length) && i < buf.Length
      invariant 0 <= i <= buf.Length
      invariant Digits(buf[..], to) && Partly(s, buf[..], i, carry, from, to, digit)
    {
      var k := buf.Length - 1 - i;
      ghost var t := buf[..];
      PartlyStep(s, t, i, carry, from, to, digit);
      carry := carry + from * buf[k];
      var low: nat := carry % to;
      DigitsUpdate(t, k, low, to);
      buf[k] := low;
      assert buf[..] == t[k := low];
      carry := carry / to;
      i := i + 1;
    }
    length' := i;
    PartlyEnds(s, buf[..], i, length, carry, from, to, digit);
    assert carry == 0;
  }

  /** The last `i` digits are done, with a carry for the digit before them. */
  ghost predicate Partly(s: seq<nat>, t: seq<nat>, i: nat, carry: nat, from: nat, to: nat, digit: nat) {
    && |t| == |s| && i <= |s| && t[..|s| - i] == s[..|s| - i]
    && carry * Pow(to, i) + Val(t[|s| - i..], to) == digit + Val(s[|s| - i..], to) * from
  }

  lemma PartlyStarts(s: seq<nat>, from: nat, to: nat, digit: nat)
    ensures Partly(s, s, 0, digit, from, to, digit)
  {
    assert s[|s|..] == [];
    ValStart(s, to);
  }

  lemma PartlyStep(s: seq<nat>, t: seq<nat>, i: nat, carry: nat, from: nat, to: nat, digit: nat)
    requires to > 1 && i < |s| && Partly(s, t, i, carry, from, to, digit)
    ensures var k := |s| - 1 - i;
            var c: nat := carry + from * t[k];
            var low: nat := c % to;
            c / to >= 0 && Partly(s, t[k := low], i + 1, c / to, from, to, digit)
  {
    hide Val, Pow;
    var k := |s| - 1 - i;
    var c: nat := carry + from * t[k];
    var low: nat := c % to;
    var u := t[k := low];
    assert t[k] == t[..k + 1][k] == s[k];
    CarryStep(carry, s[k], from, to, Pow(to, i), Val(s[k + 1..], to));
    TailStep(s, k, to);
    TailStep(u, k, to);
    assert u[k + 1..] == t[k + 1..];
    assert u[..k] == t[..k + 1][..k] == s[..k];
    PowNext(to, i);
  }

  /** At the end everything is done and no carry is left. */
  lemma PartlyEnds(s: seq<nat>, t: seq<nat>, i: nat, length: nat, carry: nat, from: nat, to: nat, digit: nat)
    requires length <= |s| && (forall k | 0 <= k < |s| - length :: s[k] == 0)
    requires Partly(s, t, i, carry, from, to, digit) && (i == |s| || (carry == 0 && i >= length))
    requires Val(s, to) * from + digit < Pow(to, |s|)
    ensures carry == 0 && Val(t, to) == Val(s, to) * from + digit && forall k | 0 <= k < |s| - i :: t[k] == 0
  {
    hide Val, Pow;
    var k := |s| - i;
    assert forall j | 0 <= j < k :: t[j] == t[..k][j] == s[..k][j] == s[j];
    if i == |s| {
      assert s[k..] == s && t[k..] == t;
      NoCarry(carry, Pow(to, i), Val(t, to), Val(s, to) * from + digit);
    } else {
      HeadZero(s, k, to);
      HeadZero(t, k, to);
    }
  }

  lemma ValStart(s: seq<nat>, b: nat)
    ensures Val([], b) == 0 && Pow(b, 0) == 1
  {
  }

  lemma PowNext(b: nat, i: nat)
    ensures Pow(b, i + 1) == Pow(b, i) * b
  {
  }

  lemma DigitsUpdate(s: seq<nat>, k: nat, x: nat, b: nat)
    requires Digits(s, b) && k < |s| && x < b
    ensures Digits(s[k := x], b)
  {
  }

  lemma TailStep(s: seq<nat>, k: nat, b: nat)
    requires k < |s|
    ensures Val(s[k..], b) == s[k] * Pow(b, |s| - 1 - k) + Val(s[k + 1..], b)
  {
    ValFront(s[k..], b);
    assert s[k..][1..] == s[k + 1..];
  }

  /** Digits in front of those in use are zero. */
  lemma HeadZero(s: seq<nat>, k: nat, b: nat)
    requires k <= |s|
    ensures (forall i | 0 <= i < k :: s[i] == 0) ==> Val(s, b) == Val(s[k..], b)
  {
    if forall i | 0 <= i < k :: s[i] == 0 {
      ValLeading(s[..k], s[k..], b);
      assert s[..k] + s[k..] == s;
    }
  }
}
