/** Skip heights, and how many steps the walk of `CBlockIndex::GetAncestor` takes (chain.cpp). */
module SkipWalk {
  import opened Numbers

  // --- The lowest one bit -------------------------------------------------------------------

  function BitAnd(x: nat, y: nat): nat {
    if x == 0 || y == 0 then 0
    else 2 * BitAnd(x / 2, y / 2) + if x % 2 == 1 && y % 2 == 1 then 1 else 0
  }

  /** Clears the lowest one bit. */
  function InvertLowestOne(n: nat): (r: nat)
    ensures n > 0 ==> r < n
    ensures n == 0 ==> r == 0
  {
    if n == 0 then 0
    else
      AndAtMost(n, n - 1);
      BitAnd(n, n - 1)
  }

  lemma {:induction false} AndAtMost(x: nat, y: nat)
    ensures BitAnd(x, y) <= y
  {
    if x != 0 && y != 0 {
      AndAtMost(x / 2, y / 2);
    }
  }

  /** The position of the lowest one bit. */
  function Lowest(n: nat): nat
    requires n > 0
  {
    if n % 2 == 1 then 0 else 1 + Lowest(n / 2)
  }

  /** A multiple of 2^m. */
  predicate Multiple(x: nat, m: nat) {
    m == 0 || (x % 2 == 0 && Multiple(x / 2, m - 1))
  }

  /** Halving: an odd number loses its last bit, an even one the lowest bit of its half. */
  lemma InvertHalf(n: nat)
    requires n > 0
    ensures InvertLowestOne(n) == if n % 2 == 1 then n - 1 else 2 * InvertLowestOne(n / 2)
  {
    if n % 2 == 1 {
      AndSame(n / 2);
      assert (n - 1) / 2 == n / 2;
    } else {
      assert (n - 1) / 2 == n / 2 - 1;
    }
  }

  lemma {:induction false} AndSame(m: nat)
    ensures BitAnd(m, m) == m
  {
    if m > 0 {
      AndSame(m / 2);
    }
  }

  /** Exactly the lowest one bit is lost, and only higher ones are left. */
  lemma {:induction false} InvertLowestOneIs(n: nat)
    requires n > 0
    ensures InvertLowestOne(n) + Pow2(Lowest(n)) == n
    ensures Multiple(n, Lowest(n)) && Multiple(InvertLowestOne(n), Lowest(n) + 1)
  {
    hide InvertLowestOne;
    InvertHalf(n);
    if n % 2 == 0 {
      InvertLowestOneIs(n / 2);
    }
  }

  lemma {:induction false} LowestOfMultiple(x: nat, m: nat)
    requires x > 0 && Multiple(x, m)
    ensures Lowest(x) >= m
  {
    if m > 0 {
      LowestOfMultiple(x / 2, m - 1);
    }
  }

  lemma {:induction false} MultipleLess(x: nat, m: nat, k: nat)
    requires Multiple(x, m) && k <= m
    ensures Multiple(x, k)
  {
    if k > 0 {
      MultipleLess(x / 2, m - 1, k - 1);
    }
  }

  /** Inside a block of 2^k numbers the lowest bit is below k, and clearing it stays in the block. */
  lemma {:induction false} Inside(a: nat, k: nat, x: nat)
    requires Multiple(a, k) && a < x < a + Pow2(k)
    ensures Lowest(x) < k && InvertLowestOne(x) >= a
  {
    hide InvertLowestOne;
    InvertHalf(x);
    if x % 2 == 0 {
      Inside(a / 2, k - 1, x / 2);
    }
  }

  // --- The walk -----------------------------------------------------------------------------

  function GetSkipHeight(height: nat): (r: nat)
    ensures height > 0 ==> r < height
    ensures height == 0 ==> r == 0
  {
    if height < 2 then 0
    else if height % 2 == 1 then InvertLowestOne(InvertLowestOne(height - 1)) + 1
    else InvertLowestOne(height)
  }

  /** Whether the walk from a height to a lower one follows the skip pointer. */
  predicate Skips(heightWalk: nat, height: nat)
    requires height < heightWalk
  {
    var heightSkip := GetSkipHeight(heightWalk);
    var heightSkipPrev := GetSkipHeight(heightWalk - 1);
    heightSkip == height || (heightSkip > height && !(heightSkipPrev < heightSkip - 2 && heightSkipPrev >= height))
  }

  function Hop(heightWalk: nat, height: nat): (r: nat)
    requires height < heightWalk
    ensures height <= r < heightWalk
  {
    if Skips(heightWalk, height) then GetSkipHeight(heightWalk) else heightWalk - 1
  }

  /** The number of steps of the walk, if every entry has its skip pointer. */
  function Hops(heightWalk: nat, height: nat): nat
    requires height <= heightWalk
  {
    if heightWalk == height then 0 else 1 + Hops(Hop(heightWalk, height), height)
  }

  lemma HopsStep(heightWalk: nat, height: nat)
    requires height < heightWalk
    ensures Hops(heightWalk, height) == 1 +
            if Skips(heightWalk, height) then Hops(GetSkipHeight(heightWalk), height) else Hops(heightWalk - 1, height)
  {
    hide GetSkipHeight;
  }

  /** From an odd height: over two bits, or to the even one below if that leads too far. */
  lemma OddStep(h: nat, t: nat)
    requires h % 2 == 1 && t < h && h > 1
    ensures var s := InvertLowestOne(InvertLowestOne(h - 1)) + 1;
            s < h && Hops(h, t) == 1 + if s >= t then Hops(s, t) else Hops(h - 1, t)
  {
    hide InvertLowestOne;
  }

  /** From an even height: over one bit, or to the odd one below if that is too far or the odd one leads further. */
  lemma EvenStep(h: nat, t: nat)
    requires h % 2 == 0 && t < h
    ensures var b, p := InvertLowestOne(h), GetSkipHeight(h - 1);
            Hops(h, t) == 1 + if b >= t && (b == t || p < t || p >= b - 2) then Hops(b, t) else Hops(h - 1, t)
  {
    hide InvertLowestOne;
  }

  lemma Gap(x: nat, m: nat)
    requires x > 0 && Multiple(x, m)
    ensures InvertLowestOne(x) + Pow2(m) <= x
  {
    hide InvertLowestOne, Pow2;
    InvertLowestOneIs(x);
    LowestOfMultiple(x, m);
    Pow2Mono(m, Lowest(x));
  }

  lemma MultipleEven(x: nat, m: nat)
    requires Multiple(x, m) && m > 0
    ensures x % 2 == 0
  {
  }

  lemma PlusTwo(x: nat)
    requires Multiple(x, 2)
    ensures InvertLowestOne(x + 2) == x
  {
    hide InvertLowestOne, Pow2;
    var half := x / 2;
    assert x == 2 * half && Multiple(half, 1) && (x + 2) / 2 == half + 1;
    InvertHalf(x + 2);
    InvertHalf(half + 1);
  }

  lemma MinusFour(h: nat)
    requires Multiple(h, 3) && h > 0
    ensures h >= 8 && Multiple(h - 4, 2)
  {
    var half := h / 2;
    assert h == 2 * half && Multiple(half, 2);
    var quarter := half / 2;
    assert half == 2 * quarter && Multiple(quarter, 1);
    assert (h - 4) / 2 == half - 2 && (half - 2) / 2 == quarter - 1;
  }

  lemma SkipOdd(b: nat)
    requires b > 0 && b % 2 == 0
    ensures GetSkipHeight(b + 1) == InvertLowestOne(InvertLowestOne(b)) + 1
  {
    hide InvertLowestOne;
  }

  /** The skip pointer of the odd height below a multiple of 8 leads to less than the one of the multiple. */
  lemma SkipBelowEighth(h: nat)
    requires h > 0 && Lowest(h) >= 3
    ensures GetSkipHeight(h - 1) > InvertLowestOne(h)
  {
    hide InvertLowestOne, Lowest, Multiple, Pow2, GetSkipHeight;
    var b, m := InvertLowestOne(h), Lowest(h);
    InvertLowestOneIs(h);
    MultipleLess(b, m + 1, m);
    MultipleLess(h, m, 3);
    MultipleEven(h, m);
    MinusFour(h);
    PlusTwo(h - 4);
    SkipOdd(h - 2);
    assert Pow2(m) >= 8 by {
      Pow2Mono(3, m);
      PowersSmall();
    }
    Inside(b, m, h - 4);
  }

  lemma PowersSmall()
    ensures Pow2(1) == 2 && Pow2(2) == 4 && Pow2(3) == 8
  {
  }

  /** The skip pointer of the odd height below an odd multiple of 4 leads further. */
  lemma SkipBelowFourth(h: nat)
    requires h > 0 && Lowest(h) == 2 && InvertLowestOne(h) > 0
    ensures var b, p := InvertLowestOne(h), GetSkipHeight(h - 1);
            p == InvertLowestOne(b) + 1 && p < b - 2
  {
    hide InvertLowestOne, Lowest, Multiple, Pow2, GetSkipHeight;
    var b := InvertLowestOne(h);
    InvertLowestOneIs(h);
    PowersSmall();
    Gap(b, 3);
    MultipleLess(b, 3, 2);
    MultipleEven(b, 2);
    PlusTwo(b);
    SkipOdd(b + 2);
  }

  /** And the one of the odd height below an odd multiple of 2. */
  lemma SkipBelowSecond(h: nat)
    requires h > 0 && Lowest(h) == 1 && InvertLowestOne(h) > 0
    ensures var b, p := InvertLowestOne(h), GetSkipHeight(h - 1);
            p == InvertLowestOne(InvertLowestOne(b)) + 1 && p < b - 2
  {
    hide InvertLowestOne, Lowest, Multiple, Pow2, GetSkipHeight;
    var b := InvertLowestOne(h);
    InvertLowestOneIs(h);
    PowersSmall();
    Gap(b, 2);
    MultipleEven(b, 2);
    SkipOdd(b);
  }

  // --- How many steps -----------------------------------------------------------------------

  /** The most steps from an odd height in a block of 2^k heights to one in the block. */
  function OddMost(k: nat): nat {
    if k <= 2 then k else if k == 3 then 4 else OddMost(k - 1) + (k + 3) / 2
  }

  lemma {:induction false} OddMostGrows(j: nat, k: nat)
    requires j <= k
    ensures OddMost(j) <= OddMost(k)
    decreases k
  {
    if j < k {
      OddMostGrows(j, k - 1);
    }
  }

  lemma {:induction false} HopsAtMost(h: nat, t: nat)
    requires t <= h
    ensures Hops(h, t) <= h - t
  {
    hide Hop;
    if t < h {
      HopsAtMost(Hop(h, t), t);
    }
  }

  lemma SmallThree(a: nat, t: nat)
    requires Multiple(a, 2) && a <= t <= a + 3
    ensures Hops(a + 3, t) <= 2
  {
    hide InvertLowestOne, GetSkipHeight, Hops, Multiple;
    HopsAtMost(a + 3, t);
    if t == a {
      MultipleEven(a, 2);
      PlusTwo(a);
      OddStep(a + 3, t);
      EvenStep(a + 2, t);
      HopsAtMost(a, t);
      if InvertLowestOne(a) + 1 >= t {
        HopsAtMost(InvertLowestOne(a) + 1, t);
      }
    }
  }

  lemma PlusFour(a: nat)
    requires Multiple(a, 3)
    ensures a % 2 == 0 && InvertLowestOne(a + 4) == a && InvertLowestOne(a + 6) == a + 4
    ensures GetSkipHeight(a + 5) == InvertLowestOne(a) + 1
  {
    hide InvertLowestOne, GetSkipHeight, Multiple;
    var half := a / 2;
    Halved(a, 3);
    InvertHalf(a + 4);
    PlusTwo(half);
    FourOn(a);
    PlusTwo(a + 4);
    SkipOdd(a + 4);
  }

  lemma Halved(x: nat, m: nat)
    requires Multiple(x, m) && m > 0
    ensures x == 2 * (x / 2) && Multiple(x / 2, m - 1)
  {
  }

  lemma FourOn(a: nat)
    requires Multiple(a, 3)
    ensures Multiple(a + 4, 2)
  {
    var half := a / 2;
    assert a == 2 * half && Multiple(half, 2) && (a + 4) / 2 == half + 2;
  }

  lemma SmallFour(a: nat, t: nat)
    requires Multiple(a, 3) && a <= t <= a + 4
    ensures Hops(a + 4, t) <= if t == a + 2 then 2 else 3
  {
    hide InvertLowestOne, GetSkipHeight, Hops, Multiple;
    HopsAtMost(a + 4, t);
    if t <= a + 1 {
      PlusFour(a);
      EvenStep(a + 4, t);
      HopsAtMost(a + 3, t);
      HopsAtMost(a, a);
    }
  }

  lemma SmallFive(a: nat, t: nat)
    requires Multiple(a, 3) && a <= t <= a + 5
    ensures Hops(a + 5, t) <= 4
  {
    hide InvertLowestOne, GetSkipHeight, Hops, Multiple;
    HopsAtMost(a + 5, t);
    if t == a {
      PlusFour(a);
      OddStep(a + 5, t);
      SmallFour(a, t);
      if InvertLowestOne(a) + 1 >= t {
        HopsAtMost(InvertLowestOne(a) + 1, t);
      }
    }
  }

  lemma SmallSix(a: nat, t: nat)
    requires Multiple(a, 3) && t == a + 2
    ensures Hops(a + 6, t) <= 3
  {
    hide InvertLowestOne, GetSkipHeight, Hops, Multiple;
    PlusFour(a);
    EvenStep(a + 6, t);
    SmallFour(a, t);
  }

  lemma SmallSeven(a: nat, t: nat)
    requires Multiple(a, 3) && a <= t <= a + 7
    ensures Hops(a + 7, t) <= 4
  {
    hide InvertLowestOne, GetSkipHeight, Hops, Multiple;
    HopsAtMost(a + 7, t);
    if t <= a + 2 {
      PlusFour(a);
      OddStep(a + 7, t);
      if t <= a + 1 {
        HopsAtMost(a + 1, t);
      } else {
        SmallSix(a, t);
      }
    }
  }

  lemma SmallOdd(a: nat, k: nat, h: nat, t: nat)
    requires 1 <= k <= 3 && Multiple(a, k) && a <= t <= h < a + Pow2(k) && h % 2 == 1
    ensures Hops(h, t) <= OddMost(k)
  {
    hide Hop, Hops, Pow2, Multiple;
    PowersSmall();
    MultipleEven(a, k);
    if h == a + 1 {
      HopsAtMost(h, t);
    } else if h == a + 3 {
      MultipleLess(a, k, 2);
      SmallThree(a, t);
    } else if h == a + 5 {
      SmallFive(a, t);
    } else {
      SmallSeven(a, t);
    }
  }
}
