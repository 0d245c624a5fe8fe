/** The most steps a walk over skip pointers takes between heights up to 2^k (chain.cpp). */
module SkipBound {
  import opened Numbers
  import opened SkipWalk

  lemma EvenBits(w: nat)
    requires w > 0 && w % 2 == 0
    ensures var b, m := InvertLowestOne(w), Lowest(w);
            && m >= 1 && b % 2 == 0 && b + Pow2(m) == w && Multiple(b, m)
            && (b > 0 ==> Lowest(b) > m)
  {
    hide InvertLowestOne, Pow2;
    InvertLowestOneIs(w);
    var b, m := InvertLowestOne(w), Lowest(w);
    MultipleLess(b, m + 1, m);
    if b > 0 {
      LowestOfMultiple(b, m + 1);
    }
  }

  /** A walk that skips over no more of an even height's bits goes on in the block below it. */
  lemma Drop(h: nat, t: nat)
    requires h % 2 == 0 && InvertLowestOne(h) < t < h
    ensures Hops(h, t) == 1 + Hops(h - 1, t)
  {
    EvenStep(h, t);
  }

  /** A walk that cannot skip over three bits skips over one. */
  lemma SkipOne(h: nat, t: nat)
    requires h % 2 == 0 && InvertLowestOne(InvertLowestOne(h)) + 1 < t <= InvertLowestOne(h) && t < h
    ensures Hops(h, t) == 1 + Hops(InvertLowestOne(h), t)
  {
    hide InvertLowestOne, GetSkipHeight, Hops, Lowest;
    var b := InvertLowestOne(h);
    EvenBits(h);
    EvenStep(h, t);
    if Lowest(h) >= 3 {
      SkipBelowEighth(h);
    } else if Lowest(h) == 2 {
      SkipBelowFourth(h);
    } else {
      SkipBelowSecond(h);
    }
  }

  /** The walk skips over two bits of the block and goes on. */
  lemma OddSkip(a: nat, k: nat, h: nat, t: nat)
    requires k > 3 && Multiple(a, k) && a <= t < h < a + Pow2(k) && h % 2 == 1 && h > a + 1
    requires InvertLowestOne(InvertLowestOne(h - 1)) + 1 >= t
    ensures Hops(h, t) <= OddMost(k - 1) + (k - Lowest(h - 1) + 4) / 2
    decreases h, 0
  {
    hide InvertLowestOne, GetSkipHeight, Hops, Lowest, Multiple, Pow2, OddMost;
    var b := InvertLowestOne(h - 1);
    var w := InvertLowestOne(b);
    OddStep(h, t);
    EvenBits(h - 1);
    Inside(a, k, h - 1);
    if b > 0 {
      EvenBits(b);
    }
    if w <= a {
      HopsAtMost(w + 1, t);
    } else {
      MultipleEven(a, k);
      OddBound(a, k, w + 1, t);
    }
  }

  /** The walk drops to the even height and on into a smaller block. */
  lemma OddDrop(a: nat, k: nat, h: nat, t: nat)
    requires k > 3 && Multiple(a, k) && a <= t < h < a + Pow2(k) && h % 2 == 1 && h > a + 1
    requires InvertLowestOne(InvertLowestOne(h - 1)) + 1 < t
    ensures Hops(h, t) <= OddMost(k - 1) + (k - Lowest(h - 1) + 4) / 2
    decreases h, 0
  {
    hide InvertLowestOne, GetSkipHeight, Hops, Lowest, Multiple, Pow2, OddMost;
    var w := h - 1;
    var b := InvertLowestOne(w);
    OddStep(h, t);
    EvenBits(w);
    Inside(a, k, w);
    HopsAtMost(t, t);
    if t < w {
      TwoBits(a, k, w, t);
      if t < b {
        Inside(a, k, b);
      }
    }
  }

  /** From an even height two of whose bits are too many: over at most one and into a smaller block. */
  lemma TwoBits(a: nat, k: nat, h: nat, t: nat)
    requires k > 0 && Multiple(a, k) && a <= t < h < a + Pow2(k) && h % 2 == 0
    requires InvertLowestOne(InvertLowestOne(h)) + 1 < t
    ensures Hops(h, t) <= OddMost(k - 1) + if t < InvertLowestOne(h) then 2 else 1
    decreases h, 1
  {
    hide InvertLowestOne, GetSkipHeight, Hops, Multiple, Pow2, OddMost, Lowest;
    var b := InvertLowestOne(h);
    EvenBits(h);
    HopsAtMost(t, t);
    if b < t {
      IntoBlock(a, k, h, t);
    } else {
      SkipOne(h, t);
      if t < b {
        IntoBlock(a, k, b, t);
      }
    }
  }

  /** From an even height into the block of odd ones below it. */
  lemma IntoBlock(a: nat, k: nat, h: nat, t: nat)
    requires k > 0 && Multiple(a, k) && a <= t < h < a + Pow2(k) && h % 2 == 0 && InvertLowestOne(h) < t
    ensures Hops(h, t) <= 1 + OddMost(k - 1)
    decreases h, 0
  {
    hide InvertLowestOne, GetSkipHeight, Hops, Lowest, Multiple, Pow2, OddMost;
    EvenBits(h);
    Inside(a, k, h);
    Drop(h, t);
    OddBound(InvertLowestOne(h), Lowest(h), h - 1, t);
    OddMostGrows(Lowest(h), k - 1);
  }

  /** From an odd height: after the odd ones reached over two bits each, one or two even ones and then the block
      of an odd height below, which is smaller. */
  lemma {:induction false} OddBound(a: nat, k: nat, h: nat, t: nat)
    requires k > 0 && Multiple(a, k) && a <= t <= h < a + Pow2(k) && h % 2 == 1
    ensures Hops(h, t) <= OddMost(k)
    ensures k > 3 && h > a + 1 ==> Hops(h, t) <= OddMost(k - 1) + (k - Lowest(h - 1) + 4) / 2
    decreases h, 1
  {
    hide InvertLowestOne, GetSkipHeight, Hops, Lowest, Multiple, Pow2;
    if k <= 3 {
      SmallOdd(a, k, h, t);
    } else if h <= a + 1 {
      HopsAtMost(h, t);
    } else {
      var w := h - 1;
      var b, m := InvertLowestOne(w), Lowest(w);
      EvenBits(w);
      Inside(a, k, w);
      if t < h {
        if InvertLowestOne(b) + 1 >= t {
          OddSkip(a, k, h, t);
        } else {
          OddDrop(a, k, h, t);
        }
      } else {
        HopsAtMost(h, t);
      }
    }
  }

  /** From a multiple of 8: over its bits one by one, and from the last into the block below. */
  lemma {:induction false} EighthBound(a: nat, k: nat, h: nat, t: nat)
    requires k > 0 && Multiple(a, k) && a <= t < h < a + Pow2(k) && Lowest(h) >= 3
    ensures Hops(h, t) <= k - Lowest(h) + OddMost(k - 1)
    decreases h
  {
    hide InvertLowestOne, GetSkipHeight, Hops, Multiple, Pow2, OddMost, Lowest;
    var b := InvertLowestOne(h);
    LowestEven(h);
    EvenBits(h);
    Inside(a, k, h);
    if b < t {
      IntoBlock(a, k, h, t);
    } else {
      EvenStep(h, t);
      SkipBelowEighth(h);
      HopsAtMost(t, t);
      if t < b {
        EighthBound(a, k, b, t);
      }
    }
  }

  /** From an even number that is no multiple of 8: to an odd one that leads further, or over at most two bits. */
  lemma EvenBound(a: nat, k: nat, h: nat, t: nat)
    requires k > 3 && Multiple(a, k) && a <= t < h < a + Pow2(k) && 1 <= Lowest(h) <= 2
    ensures Hops(h, t) <= 1 + OddMost(k)
  {
    hide InvertLowestOne, GetSkipHeight, Hops, Multiple, Pow2, OddMost, Lowest;
    var b := InvertLowestOne(h);
    LowestEven(h);
    EvenBits(h);
    Inside(a, k, h);
    OddMostStep(k);
    HopsAtMost(t, t);
    EvenStep(h, t);
    if b < t {
      IntoBlock(a, k, h, t);
    } else if t < b {
      EvenBits(b);
      Inside(a, k, b);
      OddBound(a, k, h - 1, t);
      FurtherBack(h);
      if GetSkipHeight(h - 1) < t {
        TwoBits(a, k, b, t);
      }
    }
  }

  lemma LowestEven(h: nat)
    requires h > 0 && Lowest(h) > 0
    ensures h % 2 == 0
  {
  }

  lemma OddMostStep(k: nat)
    requires k > 3
    ensures OddMost(k) == OddMost(k - 1) + (k + 3) / 2
  {
  }

  lemma FurtherBack(h: nat)
    requires h > 0 && 1 <= Lowest(h) <= 2 && InvertLowestOne(h) > 0
    ensures var b, p := InvertLowestOne(h), GetSkipHeight(h - 1);
            p < b - 2 && InvertLowestOne(InvertLowestOne(b)) + 1 <= p
  {
    hide InvertLowestOne, GetSkipHeight;
    if Lowest(h) == 1 {
      SkipBelowSecond(h);
    } else {
      SkipBelowFourth(h);
    }
  }

  /** The most steps from a height up to 2^k. */
  function Most(k: nat): nat
    requires k > 3
  {
    var odd, even := 1 + OddMost(k), k - 3 + OddMost(k - 1);
    if odd > even then odd else even
  }

  lemma HopsBound(k: nat, h: nat, t: nat)
    requires k > 3 && t <= h <= Pow2(k)
    ensures Hops(h, t) <= Most(k)
  {
    hide InvertLowestOne, GetSkipHeight, Hops, Pow2, OddMost;
    ZeroMultiple(k);
    HopsAtMost(t, t);
    if h == Pow2(k) && t < h {
      PowerEven(k);
      EvenStep(h, t);
      if t > 0 {
        OddBound(0, k, h - 1, t);
      }
    } else if t < h {
      if h % 2 == 1 {
        OddBound(0, k, h, t);
      } else if Lowest(h) >= 3 {
        EighthBound(0, k, h, t);
      } else {
        EvenBound(0, k, h, t);
      }
    }
  }

  lemma {:induction false} ZeroMultiple(k: nat)
    ensures Multiple(0, k)
  {
    if k > 0 {
      ZeroMultiple(k - 1);
    }
  }

  lemma {:induction false} PowerEven(k: nat)
    requires k > 0
    ensures Pow2(k) % 2 == 0 && InvertLowestOne(Pow2(k)) == 0
  {
    hide InvertLowestOne;
    InvertHalf(Pow2(k));
    InvertHalf(Pow2(k - 1));
    if k > 1 {
      PowerEven(k - 1);
    }
  }

  /** In closed form, for even and for odd k. */
  lemma {:induction false} OddMostIs(q: nat)
    requires q >= 2
    ensures OddMost(2 * q) == q * q + 3 * q - 3 && OddMost(2 * q + 1) == q * q + 4 * q - 1
  {
    assert (2 * q + 3) / 2 == q + 1 && (2 * q + 4) / 2 == q + 2;
    if q > 2 {
      OddMostIs(q - 1);
      assert (q - 1) * (q - 1) == q * q - 2 * q + 1;
    } else {
      assert OddMost(4) == 7;
    }
  }

  lemma MostIs(k: nat)
    requires k >= 10
    ensures Most(k) == k - 3 + OddMost(k - 1) == (k * k + 8 * k - 26) / 4
  {
    hide OddMost;
    var q := k / 2;
    OddMostIs(q);
    OddMostIs(q - 1);
    assert (q - 1) * (q - 1) == q * q - 2 * q + 1;
    if k == 2 * q {
      assert k * k == 4 * (q * q);
    } else {
      assert k == 2 * q + 1;
      assert k * k == 4 * (q * q) + 4 * q + 1;
    }
  }

  // --- The bound is met ---------------------------------------------------------------------

  /** The number with the bits from e to k - 1. */
  function Ones(k: nat, e: nat): (n: nat)
    requires e <= k
    ensures e < k ==> n > 0
  {
    Pow2Mono(e, k);
    Pow2(k) - Pow2(e)
  }

  lemma {:induction false} OnesLowest(k: nat, e: nat)
    requires e < k
    ensures Lowest(Ones(k, e)) == e && InvertLowestOne(Ones(k, e)) == Ones(k, e + 1)
    ensures e > 0 ==> Ones(k, e) % 2 == 0
  {
    hide InvertLowestOne;
    InvertHalf(Ones(k, e));
    if e > 0 {
      OnesLowest(k - 1, e - 1);
      assert Ones(k, e) == 2 * Ones(k - 1, e - 1);
    } else {
      assert Pow2(k) == 2 * Pow2(k - 1);
    }
  }

  lemma OnesAtLeast(k: nat, e: nat)
    requires e < k && k > 1
    ensures Ones(k, e) >= Pow2(k - 1) >= 2 && Ones(k, k - 1) == Pow2(k - 1) && Ones(k, k) == 0
  {
    Pow2Mono(e, k - 1);
  }

  /** From all ones to 2 the walk takes the most steps. */
  lemma {:induction false} WorstOdd(k: nat)
    requires k >= 3
    ensures Ones(k, 0) >= 2 && Hops(Ones(k, 0), 2) == OddMost(k)
    decreases k, 2, 0
  {
    hide InvertLowestOne, GetSkipHeight, Hops, Hop;
    if k == 3 {
      WorstSeven();
    } else {
      WorstFrom(k, 1);
      assert Ones(k, 0) == Ones(k, 1) + 1;
    }
  }

  lemma WorstSeven()
    ensures Ones(3, 0) == 7 && Hops(7, 2) == 4
  {
    assert InvertLowestOne(6) == 4 && InvertLowestOne(4) == 0 && InvertLowestOne(2) == 0;
    assert Hops(3, 2) == 1 && Hops(4, 2) == 2;
    assert Hops(6, 2) == 3;
  }

  lemma {:induction false} WorstFrom(k: nat, e: nat)
    requires k > 3 && e < k && e % 2 == 1
    ensures Hops(Ones(k, e) + 1, 2) == OddMost(k - 1) + (k - e + 4) / 2
    decreases k, 1, k - e
  {
    hide InvertLowestOne, GetSkipHeight, Hops, Hop, OddMost, Ones, Lowest;
    OnesLowest(k, e);
    OnesAtLeast(k, e);
    OddStep(Ones(k, e) + 1, 2);
    if e + 1 == k {
      WorstEven(k);
    } else {
      OnesLowest(k, e + 1);
      if e + 2 < k {
        OnesAtLeast(k, e + 2);
        WorstFrom(k, e + 2);
      } else {
        SkipOne(Ones(k, e), 2);
        WorstEven(k);
      }
    }
  }

  /** 2^(k - 1) is a step above all ones. */
  lemma {:induction false} WorstEven(k: nat)
    requires k > 3
    ensures Hops(Ones(k, k - 1), 2) == 1 + OddMost(k - 1)
    decreases k, 0, 0
  {
    hide InvertLowestOne, GetSkipHeight, Hops, Hop, OddMost, Lowest;
    OnesLowest(k, k - 1);
    OnesAtLeast(k, k - 1);
    Drop(Ones(k, k - 1), 2);
    WorstOdd(k - 1);
  }

  /** From the bits from e to k - 1 to 2 the walk goes over each bit by itself. */
  lemma {:induction false} WorstBits(k: nat, e: nat)
    requires 3 <= e < k
    ensures Hops(Ones(k, e), 2) == k - e + OddMost(k - 1)
    decreases k - e
  {
    hide InvertLowestOne, GetSkipHeight, Hops, Hop, OddMost, Lowest, Ones;
    if e + 1 == k {
      WorstEven(k);
    } else {
      OnesLowest(k, e);
      OnesAtLeast(k, e + 1);
      SkipBelowEighth(Ones(k, e));
      EvenStep(Ones(k, e), 2);
      WorstBits(k, e + 1);
    }
  }

  /** No walk between heights up to 2^18 takes more than 110 steps, and the one from 262136 to 2 takes 110; in
      general the one from 2^k - 8 to 2 takes the most. */
  lemma MostIsMet(k: nat)
    requires k >= 10
    ensures Pow2(k) >= 10 && Hops(Pow2(k) - 8, 2) == Most(k) == (k * k + 8 * k - 26) / 4
    ensures Most(18) == 110 && Pow2(18) - 8 == 262136
  {
    hide Hops, OddMost;
    MostIs(k);
    MostIs(18);
    WorstBits(k, 3);
    assert Ones(k, 3) == Pow2(k) - 8;
    assert Pow2(9) == 512 && Pow2(18) == 262144;
  }

  /** The number given with the choice of skip heights. */
  lemma HopsEnd(h: nat, t: nat)
    requires t <= h
    ensures Hops(t, t) == 0 && (h <= Pow2(18) ==> Hops(h, t) <= 110)
  {
    hide Hops, Pow2, Most;
    HopsAtMost(t, t);
    if h <= Pow2(18) {
      HopsBound(18, h, t);
      MostIs(18);
    }
  }
}
