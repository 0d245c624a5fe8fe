/** Difficulty retargeting and the proof of work check (pow.cpp). */
module Pow {
  import opened Numbers
  import opened Limbs
  import opened BaseUint
  import opened Compact
  import opened Chain

  const PAST_BLOCKS := 180

  datatype Params = Params(
    nPowTargetSpacing: nat,
    nPowTargetTimespan: nat,
    fPowAllowMinDifficultyBlocks: bool,
    fPowNoRetargeting: bool,
    nKAWPOWActivationTime: int)

  // --- The running average of the window ----------------------------------------------------

  ghost function Target(b: BlockIndex): int {
    Decoded(b.nBits) % Pow2(256)
  }

  /** The n-th block back, the last block being the first. */
  ghost function Back(b: BlockIndex, n: nat): BlockIndex
    requires Linked(b) && 1 <= n <= b.nHeight + 1
  {
    Ancestor(b, b.nHeight + 1 - n)
  }

  ghost function Average(b: BlockIndex, n: nat): int
    requires Linked(b) && 1 <= n <= b.nHeight + 1
  {
    if n == 1 then Target(b)
    else (Average(b, n - 1) * n % Pow2(256) + Target(Back(b, n))) % Pow2(256) / (n + 1)
  }

  ghost function KawpowFound(b: BlockIndex, n: nat, activation: int): nat
    requires Linked(b) && n <= b.nHeight + 1
  {
    if n == 0 then 0 else KawpowFound(b, n - 1, activation) + if Back(b, n).nTime >= activation then 1 else 0
  }

  /** While nothing wraps, the average lies between the least and the greatest target. */
  lemma {:induction false} AverageBetween(b: BlockIndex, n: nat, lo: int, hi: int)
    requires Linked(b) && 1 <= n <= b.nHeight + 1
    requires forall i | 1 <= i <= n :: lo <= Target(Back(b, i)) <= hi
    requires 0 <= lo && hi * (n + 1) < Pow2(256)
    ensures lo <= Average(b, n) <= hi
  {
    hide Pow2, Target;
    assert Target(Back(b, n)) >= lo;
    if n == 1 {
      assert Back(b, 1) == b;
    } else {
      MulMono(n, n + 1, hi);
      AverageBetween(b, n - 1, lo, hi);
      Weighted(Average(b, n - 1), Target(Back(b, n)), n, lo, hi, Pow2(256));
    }
  }

  lemma Weighted(a: int, t: int, n: nat, lo: int, hi: int, m: int)
    requires 0 <= lo <= a <= hi && lo <= t <= hi && hi * (n + 1) < m
    ensures lo <= (a * n % m + t) % m / (n + 1) <= hi
  {
    MulMono(lo, a, n);
    MulMono(a, hi, n);
    MulMono(0, lo, n);
    OneMore(lo, n);
    OneMore(hi, n);
    SmallMod(a * n, m);
    SmallMod(a * n + t, m);
    DivBetween(a * n + t, n + 1, lo, hi);
  }

  lemma OneMore(x: int, n: int)
    ensures x * (n + 1) == x * n + x
  {
  }

  lemma DivBetween(x: int, d: int, lo: int, hi: int)
    requires d > 0 && lo * d <= x <= hi * d
    ensures lo <= x / d <= hi
  {
    DivBounds(x, d);
    QuotientAbove(x, x / d, d, lo);
    Difference(hi, -1, d);
    QuotientBelow(x, x / d, d, hi + 1);
  }

  /** The targets of the window added up, the last block's twice. */
  ghost function TargetSum(b: BlockIndex, n: nat): int
    requires Linked(b) && 1 <= n <= b.nHeight + 1
  {
    if n == 1 then 2 * Target(b) else TargetSum(b, n - 1) + Target(Back(b, n))
  }

  /** While nothing wraps, the average is the mean of the window with the last block counted twice, and rounding
      makes it smaller by at most n / 2. */
  lemma {:induction false} AverageIsMean(b: BlockIndex, n: nat, hi: int)
    requires Linked(b) && 1 <= n <= b.nHeight + 1
    requires forall i | 1 <= i <= n :: Target(Back(b, i)) <= hi
    requires hi * (n + 1) < Pow2(256)
    ensures (n + 1) * Average(b, n) <= TargetSum(b, n)
    ensures 2 * TargetSum(b, n) <= (n + 1) * (2 * Average(b, n) + n)
  {
    hide Pow2, Target, Back;
    if n > 1 {
      var a, t, m := Average(b, n - 1), Target(Back(b, n)), Pow2(256);
      TargetsNotNegative(b, n);
      MulMono(n, n + 1, hi);
      AverageIsMean(b, n - 1, hi);
      AverageBetween(b, n - 1, 0, hi);
      MulMono(a, hi, n);
      MulMono(0, a, n);
      OneMore(hi, n);
      SmallMod(a * n, m);
      SmallMod(a * n + t, m);
      MeanStep(a, t, n, TargetSum(b, n - 1));
    }
  }

  lemma MeanStep(a: int, t: int, n: nat, sum: int)
    requires n > 1 && n * a <= sum && 2 * sum <= n * (2 * a + (n - 1))
    ensures var next := (a * n + t) / (n + 1); (n + 1) * next <= sum + t && 2 * (sum + t) <= (n + 1) * (2 * next + n)
  {
    var next := (a * n + t) / (n + 1);
    DivBounds(a * n + t, n + 1);
    assert n * a == a * n && (n + 1) * next == next * (n + 1);
    assert n * (2 * a + (n - 1)) == 2 * (a * n) + n * n - n;
    assert (n + 1) * (2 * next + n) == 2 * (next * (n + 1)) + n * n + n;
  }

  lemma TargetsNotNegative(b: BlockIndex, n: nat)
    requires Linked(b) && 1 <= n <= b.nHeight + 1
    ensures forall i | 1 <= i <= n :: Target(Back(b, i)) >= 0
  {
    hide Target, Back;
    forall i | 1 <= i <= n
      ensures Target(Back(b, i)) >= 0
    {
      TargetNotNegative(Back(b, i));
    }
  }

  // --- Retargeting --------------------------------------------------------------------------

  function Clamp(x: int, lo: int, hi: int): int {
    var y := if x < lo then lo else x;
    if y > hi then hi else y
  }

  /** A target scaled by a timespan; the factor is cut to 32 bits. */
  ghost function Retargeted(t: int, actual: int, timespan: int): (r: int)
    requires timespan > 0
    ensures r >= 0
  {
    DivAtMost(t * (actual % BASE) % Pow2(256), timespan);
    t * (actual % BASE) % Pow2(256) / timespan
  }

  /** Scaling is what it says exactly while the product fits. */
  lemma RetargetExactIff(t: int, actual: int, timespan: nat)
    requires t >= 0 && 0 <= actual < BASE && 0 < timespan <= Pow2(256)
    ensures Retargeted(t, actual, timespan) == t * actual / timespan <==> t * actual < Pow2(256)
  {
    hide Pow2;
    SmallMod(actual, BASE);
    MulMono(0, actual, t);
    var n, m := t * actual, Pow2(256);
    if n < m {
      SmallMod(n, m);
    } else {
      DivBounds(n, m);
      QuotientAbove(n, n / m, m, 1);
      MulMono(1, n / m, m);
      assert n % m <= n - timespan;
      DivBounds(n, timespan);
      DivBounds(n % m, timespan);
      LessByOne(n % m, n, timespan);
    }
  }

  lemma LessByOne(x: int, y: int, d: int)
    requires d > 0 && x <= y - d
    ensures x / d < y / d
  {
    DivBounds(x, d);
    OneMore(d, x / d);
    QuotientAbove(y, y / d, d, x / d + 1);
    DivBounds(y, d);
  }

  /** With a step factor k, the result is between one k-th and k times the old target. */
  lemma RetargetBetween(t: int, x: int, timespan: nat, k: nat)
    requires t >= 0 && timespan > 0 && k >= 1 && timespan % k == 0 && k * timespan < BASE
    requires t * Clamp(x, timespan / k, k * timespan) < Pow2(256)
    ensures t / k <= Retargeted(t, Clamp(x, timespan / k, k * timespan), timespan) <= k * t
  {
    hide Pow2;
    var least := timespan / k;
    var actual := Clamp(x, least, k * timespan);
    DivBounds(timespan, k);
    DivAtMost(timespan, k);
    MulMono(1, k, timespan);
    assert least * k == timespan;
    SmallMod(actual, BASE);
    MulMono(actual, k * timespan, t);
    MulMono(least, actual, t);
    MulMono(0, least, t);
    assert actual * t == t * actual && k * timespan * t == t * (k * timespan) && least * t == t * least;
    SmallMod(t * actual, Pow2(256));
    ScaledBetween(t, actual, least, timespan, k);
  }

  lemma ScaledBetween(t: int, actual: int, least: int, timespan: nat, k: nat)
    requires timespan > 0 && k >= 1 && least * k == timespan && t >= 0
    requires t * least <= t * actual <= t * (k * timespan)
    ensures t / k <= t * actual / timespan <= k * t
  {
    var q := t * actual / timespan;
    DivBounds(t * actual, timespan);
    DivBounds(t, k);
    if least < 0 {
      MulMono(least, -1, k);
    }
    MulMono(t / k * k, t, least);
    MulAssoc(t / k, k, least);
    assert k * least == timespan;
    QuotientAbove(t * actual, q, timespan, t / k);
    MulAssoc(t, k, timespan);
    assert (t * k + 1) * timespan == t * k * timespan + timespan;
    QuotientBelow(t * actual, q, timespan, t * k + 1);
  }

  ghost function Min(a: int, b: int): int { if a < b then a else b }

  /** The result of the Dark Gravity Wave for a block at `blockTime` on top of `b`. */
  ghost function Dgw(b: BlockIndex, blockTime: int, p: Params, powLimit: nat, kawpowLimit: nat): int
    requires Linked(b) && p.nPowTargetSpacing > 0
  {
    if b.nHeight < PAST_BLOCKS then Encoded(powLimit, false)
    else if p.fPowAllowMinDifficultyBlocks &&
        blockTime > b.nTime + p.nPowTargetSpacing * 2 then Encoded(powLimit, false)
    else if blockTime >= p.nKAWPOWActivationTime &&
        KawpowFound(b, PAST_BLOCKS, p.nKAWPOWActivationTime) != PAST_BLOCKS then
      Encoded(kawpowLimit, false)
    else
      Encoded(Min(NewTarget(b, p), powLimit), false)
  }

  function Timespan(p: Params): nat { PAST_BLOCKS * p.nPowTargetSpacing }

  /** The time the window took, within a factor of three of what it should take. */
  ghost function Actual(b: BlockIndex, p: Params): int
    requires Linked(b) && b.nHeight >= PAST_BLOCKS
  {
    Clamp(b.nTime - Back(b, PAST_BLOCKS).nTime, Timespan(p) / 3, Timespan(p) * 3)
  }

  ghost function NewTarget(b: BlockIndex, p: Params): (r: int)
    requires Linked(b) && p.nPowTargetSpacing > 0 && b.nHeight >= PAST_BLOCKS
    ensures r >= 0
  {
    Retargeted(Average(b, PAST_BLOCKS), Actual(b, p), Timespan(p))
  }

  /** What the retarget is meant to guarantee: the compact result is a target without sign or overflow, no
      easier than the limit; and it stays within a factor of three of the average, if the product of the
      two fits. */
  lemma DgwSound(b: BlockIndex, blockTime: int, p: Params, powLimit: nat, kawpowLimit: nat)
    requires Linked(b) && p.nPowTargetSpacing > 0 && kawpowLimit <= powLimit < Pow2(256) && 3 * Timespan(p) < BASE
    ensures var r := Dgw(b, blockTime, p, powLimit, kawpowLimit);
            0 <= r < BASE && !Sign(r) && 0 <= Decoded(r) <= powLimit
    ensures b.nHeight >= PAST_BLOCKS ==>
              var avg := Average(b, PAST_BLOCKS);
              0 <= avg && (avg * Actual(b, p) < Pow2(256) ==> avg / 3 <= NewTarget(b, p) <= 3 * avg)
  {
    hide Pow2, Average, Back, Encoded, Decoded, Sign, KawpowFound, Rounded, NewTarget, Actual;
    CompactBelow(powLimit, powLimit);
    CompactBelow(kawpowLimit, powLimit);
    if b.nHeight >= PAST_BLOCKS {
      AverageNotNegative(b, PAST_BLOCKS);
      CompactBelow(Min(NewTarget(b, p), powLimit), powLimit);
      if Average(b, PAST_BLOCKS) * Actual(b, p) < Pow2(256) {
        NewTargetBetween(b, p);
      }
    }
  }

  lemma NewTargetBetween(b: BlockIndex, p: Params)
    requires Linked(b) && p.nPowTargetSpacing > 0 && b.nHeight >= PAST_BLOCKS && 3 * Timespan(p) < BASE
    requires Average(b, PAST_BLOCKS) >= 0 && Average(b, PAST_BLOCKS) * Actual(b, p) < Pow2(256)
    ensures Average(b, PAST_BLOCKS) / 3 <= NewTarget(b, p) <= 3 * Average(b, PAST_BLOCKS)
  {
    hide Pow2, Average, Back, Retargeted, Actual, Clamp, Timespan;
    ActualIs(b, p);
    RetargetBetween(Average(b, PAST_BLOCKS), b.nTime - Back(b, PAST_BLOCKS).nTime, Timespan(p), 3);
  }

  lemma ActualIs(b: BlockIndex, p: Params)
    requires Linked(b) && p.nPowTargetSpacing > 0 && b.nHeight >= PAST_BLOCKS
    ensures Timespan(p) > 0 && Timespan(p) % 3 == 0
    ensures Actual(b, p) == Clamp(b.nTime - Back(b, PAST_BLOCKS).nTime, Timespan(p) / 3, 3 * Timespan(p))
  {
    hide Back, Clamp;
    ModIs(Timespan(p), 3, 60 * p.nPowTargetSpacing, 0);
  }

  /** No retarget is made: there is no window yet, or the block comes late enough on a network that makes an
      exception for that. */
  ghost predicate Exempt(b: BlockIndex, blockTime: int, p: Params) {
    b.nHeight < PAST_BLOCKS || (p.fPowAllowMinDifficultyBlocks && blockTime > b.nTime + 2 * p.nPowTargetSpacing)
  }

  /** Every block of the window has a time from the activation on. */
  ghost predicate AllSince(b: BlockIndex, activation: int)
    requires Linked(b) && b.nHeight >= PAST_BLOCKS
  {
    forall i | 1 <= i <= PAST_BLOCKS :: Back(b, i).nTime >= activation
  }

  lemma {:induction false} KawpowFoundAll(b: BlockIndex, n: nat, activation: int)
    requires Linked(b) && n <= b.nHeight + 1
    ensures KawpowFound(b, n, activation) <= n
    ensures KawpowFound(b, n, activation) == n <==> forall i | 1 <= i <= n :: Back(b, i).nTime >= activation
  {
    hide Back;
    if n > 0 {
      KawpowFoundAll(b, n - 1, activation);
    }
  }

  /** The limit without a window or for a late block; the KAWPOW limit for a block from the activation on whose
      window goes back before it. */
  lemma DgwLimits(b: BlockIndex, blockTime: int, p: Params, powLimit: nat, kawpowLimit: nat)
    requires Linked(b) && p.nPowTargetSpacing > 0
    ensures var r := Dgw(b, blockTime, p, powLimit, kawpowLimit);
            && (Exempt(b, blockTime, p) ==> r >= 0 && Decoded(r) == Rounded(powLimit))
            && (!Exempt(b, blockTime, p) && blockTime >= p.nKAWPOWActivationTime ==>
                  !AllSince(b, p.nKAWPOWActivationTime) ==> r >= 0 && Decoded(r) == Rounded(kawpowLimit))
  {
    hide Encoded, Decoded, Rounded, Back, KawpowFound, NewTarget;
    RoundsTo(powLimit);
    RoundsTo(kawpowLimit);
    if b.nHeight >= PAST_BLOCKS {
      KawpowFoundAll(b, PAST_BLOCKS, p.nKAWPOWActivationTime);
    }
  }

  lemma DgwRetargeted(b: BlockIndex, blockTime: int, p: Params, powLimit: nat, kawpowLimit: nat)
    requires Linked(b) && p.nPowTargetSpacing > 0 && !Exempt(b, blockTime, p)
    requires blockTime < p.nKAWPOWActivationTime || AllSince(b, p.nKAWPOWActivationTime)
    ensures Dgw(b, blockTime, p, powLimit, kawpowLimit) == Encoded(Min(NewTarget(b, p), powLimit), false)
  {
    hide Encoded, Back, KawpowFound, NewTarget;
    KawpowFoundAll(b, PAST_BLOCKS, p.nKAWPOWActivationTime);
  }

  /** Every other block gets the average scaled by the time its window took over the time it should take, within
      a factor of three, cut to the limit, and rounded to the compact form. */
  lemma DgwRetargets(b: BlockIndex, blockTime: int, p: Params, powLimit: nat, kawpowLimit: nat)
    requires Linked(b) && p.nPowTargetSpacing > 0 && powLimit < Pow2(256) && 3 * Timespan(p) < BASE
    requires !Exempt(b, blockTime, p)
    requires blockTime < p.nKAWPOWActivationTime || AllSince(b, p.nKAWPOWActivationTime)
    requires Average(b, PAST_BLOCKS) * Actual(b, p) < Pow2(256)
    ensures var r := Dgw(b, blockTime, p, powLimit, kawpowLimit);
            var avg, span, took := Average(b, PAST_BLOCKS), Timespan(p), b.nTime - Back(b, PAST_BLOCKS).nTime;
            && 0 <= avg && span > 0 && r >= 0
            && 0 <= avg * Within(took, span / 3, 3 * span) / span
            && Decoded(r) == Rounded(Min(avg * Within(took, span / 3, 3 * span) / span, powLimit))
            && Rounded(Min(avg / 3, powLimit)) <= Decoded(r) <= Min(3 * avg, powLimit)
  {
    hide Pow2, Encoded, Decoded, Rounded, Back, Average, Dgw, Retargeted, AllSince, Actual, Clamp, Timespan;
    DgwRetargeted(b, blockTime, p, powLimit, kawpowLimit);
    ActualIs(b, p);
    AverageNotNegative(b, PAST_BLOCKS);
    RetargetRounded(Average(b, PAST_BLOCKS), b.nTime - Back(b, PAST_BLOCKS).nTime, Timespan(p), 3, powLimit);
  }

  /** A number brought between two others. */
  ghost function Within(x: int, lo: int, hi: int): int {
    if lo <= x <= hi then x else if x < lo then lo else hi
  }

  /** A clamped retarget cut to a limit, decoded from its compact form. */
  lemma RetargetRounded(t: int, x: int, timespan: nat, k: nat, limit: nat)
    requires t >= 0 && timespan > 0 && k >= 1 && timespan % k == 0 && k * timespan < BASE && limit < Pow2(256)
    requires t * Clamp(x, timespan / k, k * timespan) < Pow2(256)
    ensures var scaled := t * Within(x, timespan / k, k * timespan) / timespan;
            var cut := Min(Retargeted(t, Clamp(x, timespan / k, k * timespan), timespan), limit);
            && 0 <= scaled && 0 <= t / k && cut == Min(scaled, limit) && 0 <= Encoded(cut, false)
            && Decoded(Encoded(cut, false)) == Rounded(cut)
            && Rounded(Min(t / k, limit)) <= Rounded(cut) <= Min(k * t, limit)
  {
    hide Pow2, Encoded, Decoded, Rounded;
    var actual := Clamp(x, timespan / k, k * timespan);
    SpanBounds(timespan, k);
    RetargetBetween(t, x, timespan, k);
    RetargetExactIff(t, actual, timespan);
    var cut := Min(Retargeted(t, actual, timespan), limit);
    DivAtMost(t, k);
    RoundsTo(cut);
    RoundedDown(cut);
    RoundedMono(Min(t / k, limit), cut);
  }

  lemma SpanBounds(timespan: nat, k: nat)
    requires k >= 1 && timespan > 0 && k * timespan < BASE
    ensures 0 <= timespan / k <= timespan <= k * timespan && timespan <= Pow2(256)
  {
    hide Pow2;
    DivAtMost(timespan, k);
    MulMono(1, k, timespan);
    Pow2At32();
    Pow2Mono(32, 256);
  }

  /** With the same average, a window that took longer never gives a smaller target. */
  lemma DgwSlower(b: BlockIndex, c: BlockIndex, blockTime: int, laterTime: int, p: Params, powLimit: nat,
                  kawpowLimit: nat)
    requires Linked(b) && Linked(c) && p.nPowTargetSpacing > 0 && powLimit < Pow2(256) && 3 * Timespan(p) < BASE
    requires !Exempt(b, blockTime, p) && !Exempt(c, laterTime, p)
    requires blockTime < p.nKAWPOWActivationTime || AllSince(b, p.nKAWPOWActivationTime)
    requires laterTime < p.nKAWPOWActivationTime || AllSince(c, p.nKAWPOWActivationTime)
    requires Average(b, PAST_BLOCKS) == Average(c, PAST_BLOCKS)
    requires b.nTime - Back(b, PAST_BLOCKS).nTime <= c.nTime - Back(c, PAST_BLOCKS).nTime
    requires Average(c, PAST_BLOCKS) * Actual(c, p) < Pow2(256)
    ensures var r := Dgw(b, blockTime, p, powLimit, kawpowLimit);
            var q := Dgw(c, laterTime, p, powLimit, kawpowLimit);
            0 <= r && 0 <= q && Decoded(r) <= Decoded(q)
  {
    hide Pow2, Encoded, Decoded, Rounded, Back, Average, Dgw, AllSince;
    var avg, span := Average(b, PAST_BLOCKS), Timespan(p);
    var took, longer := b.nTime - Back(b, PAST_BLOCKS).nTime, c.nTime - Back(c, PAST_BLOCKS).nTime;
    AverageNotNegative(b, PAST_BLOCKS);
    ScaledMono(avg, Within(took, span / 3, 3 * span), Within(longer, span / 3, 3 * span), span);
    DgwRetargets(b, blockTime, p, powLimit, kawpowLimit);
    DgwRetargets(c, laterTime, p, powLimit, kawpowLimit);
    var x, y := avg * Within(took, span / 3, 3 * span) / span, avg * Within(longer, span / 3, 3 * span) / span;
    RoundedMono(Min(x, powLimit), Min(y, powLimit));
  }

  lemma ScaledMono(t: int, x: int, y: int, d: int)
    requires t >= 0 && x <= y && d > 0
    ensures t * x <= t * y && t * x / d <= t * y / d
  {
    MulMono(x, y, t);
    assert x * t == t * x && y * t == t * y;
    DivBounds(t * x, d);
    DivBounds(t * y, d);
    QuotientAbove(t * y, t * y / d, d, t * x / d);
  }

  lemma AverageNotNegative(b: BlockIndex, n: nat)
    requires Linked(b) && 1 <= n <= b.nHeight + 1
    ensures Average(b, n) >= 0
  {
    hide Target, Back;
    if n == 1 {
      TargetNotNegative(b);
    } else {
      DivAtMost((Average(b, n - 1) * n % Pow2(256) + Target(Back(b, n))) % Pow2(256), n + 1);
    }
  }

  lemma TargetNotNegative(b: BlockIndex)
    ensures Target(b) >= 0
  {
    hide Decoded;
  }

  /** With targets up to the limit, and a limit that leaves room for the longest timespan, it always fits. */
  lemma DgwFits(b: BlockIndex, p: Params, powLimit: nat)
    requires Linked(b) && p.nPowTargetSpacing > 0 && b.nHeight >= PAST_BLOCKS
    requires forall i | 1 <= i <= PAST_BLOCKS :: 0 <= Target(Back(b, i)) <= powLimit
    requires powLimit * (3 * Timespan(p)) < Pow2(256)
    ensures 0 <= Average(b, PAST_BLOCKS) <= powLimit && Average(b, PAST_BLOCKS) * Actual(b, p) < Pow2(256)
  {
    hide Pow2, Average, Back, Target;
    var span := Timespan(p);
    MulMono(181, 3 * span, powLimit);
    assert 3 * span * powLimit == powLimit * (3 * span);
    AverageBetween(b, PAST_BLOCKS, 0, powLimit);
    var avg, actual := Average(b, PAST_BLOCKS), Actual(b, p);
    MulMono(actual, 3 * span, avg);
    MulMono(avg, powLimit, 3 * span);
    assert actual * avg == avg * actual && 3 * span * avg == avg * (3 * span);
  }

  // --- The test network ---------------------------------------------------------------------

  /** The compact form of the test network's limit, and its target. */
  const TEST_BITS: nat := 0x1f0f_ffff

  ghost function TestTarget(): int { 0xf_ffff * Pow2(224) }

  lemma TestBits()
    ensures Decoded(TEST_BITS) % Pow2(256) == TestTarget()
  {
    hide Pow2;
    assert Word(TEST_BITS) == 0xf_ffff && Size(TEST_BITS) == 31;
    Pow2Add(32, 224);
    Pow2At32();
    SmallMod(TestTarget(), Pow2(256));
  }

  /** Its limit leaves no room: after 180 blocks at the limit, exactly on schedule, the new target is not the
      old one but less than a third of it. */
  lemma TestNetworkWraps(b: BlockIndex, p: Params)
    requires Linked(b) && b.nHeight >= PAST_BLOCKS && p.nPowTargetSpacing == 60
    requires forall i | 1 <= i <= PAST_BLOCKS :: Back(b, i).nBits == TEST_BITS
    requires b.nTime - Back(b, PAST_BLOCKS).nTime == Timespan(p)
    ensures Average(b, PAST_BLOCKS) == TestTarget() && Actual(b, p) == Timespan(p)
    ensures NewTarget(b, p) < Average(b, PAST_BLOCKS) / 3
  {
    hide Pow2, Average, Back, Decoded;
    TestBits();
    Pow2Add(32, 224);
    Pow2At32();
    TestRoom(Pow2(224));
    AverageBetween(b, PAST_BLOCKS, TestTarget(), TestTarget());
    TestProduct(Pow2(224));
  }

  lemma TestRoom(q: int)
    requires q > 0
    ensures 0xf_ffff * q * 181 < BASE * q
  {
  }

  lemma TestProduct(q: int)
    requires q > 0
    ensures 0xf_ffff * q * 10800 % (BASE * q) / 10800 < 0xf_ffff * q / 3
  {
    var n := 0xf_ffff * q * 10800;
    assert n == 2 * (BASE * q) + 2734675408 * q;
    ModIs(n, BASE * q, 2, 2734675408 * q);
    DivBounds(2734675408 * q, 10800);
    QuotientBelow(2734675408 * q, 2734675408 * q / 10800, 10800, 349525 * q);
    DivIs(0xf_ffff * q, 3, 349525 * q);
  }

  lemma CompactBelow(x: nat, limit: nat)
    requires x <= limit < Pow2(256)
    ensures 0 <= Encoded(x, false) < BASE && !Sign(Encoded(x, false)) && 0 <= Decoded(Encoded(x, false)) <= limit
  {
    hide Pow2, Encoded, Decoded, Sign;
    EncodedRange(x);
    RoundedDown(x);
  }

  // --- The operations -----------------------------------------------------------------------

  /** Walks the window back from the last block. */
  method WindowAverage(b: BlockIndex, activation: int) returns (avg: BaseUint, first: BlockIndex, found: nat)
    requires Linked(b) && b.nHeight >= PAST_BLOCKS && forall i | 1 <= i <= PAST_BLOCKS :: Back(b, i).nBits < BASE
    ensures Is256(avg) && fresh(avg) && fresh(avg.pn) && avg.Value() == Average(b, PAST_BLOCKS)
    ensures first == Back(b, PAST_BLOCKS) && found == KawpowFound(b, PAST_BLOCKS, activation)
  {
    hide Pow2, Decoded;
    var pindex := b;
    avg := new BaseUint(WIDTH);
    found := 0;
    var nCountBlocks := 1;
    assert Back(b, 1) == b;
    while nCountBlocks <= PAST_BLOCKS
      invariant 1 <= nCountBlocks <= PAST_BLOCKS + 1
      invariant pindex == Back(b, if nCountBlocks <= PAST_BLOCKS then nCountBlocks else PAST_BLOCKS)
      invariant Is256(avg) && fresh(avg) && fresh(avg.pn)
      invariant nCountBlocks > 1 ==> avg.Value() == Average(b, nCountBlocks - 1)
      invariant found == KawpowFound(b, nCountBlocks - 1, activation)
    {
      var bnTarget := new BaseUint(WIDTH);
      var fNegative, fOverflow := SetCompact(bnTarget, pindex.nBits);
      if nCountBlocks == 1 {
        avg := bnTarget;
      } else {
        Blend(avg, bnTarget, nCountBlocks);
      }
      if pindex.nTime >= activation {
        found := found + 1;
      }
      if nCountBlocks != PAST_BLOCKS {
        StepBack(b, b.nHeight + 1 - nCountBlocks);
        pindex := pindex.pprev;
      }
      nCountBlocks := nCountBlocks + 1;
    }
    first := pindex;
  }

  /** The average with one more target blended in. */
  method Blend(avg: BaseUint, t: BaseUint, n: nat)
    requires Is256(avg) && Is256(t) && avg != t && avg.pn != t.pn && 1 < n < BASE
    modifies avg.pn
    ensures avg.Value() == (old(avg.Value()) * n % Pow2(256) + t.Value()) % Pow2(256) / (n + 1)
  {
    hide Pow2, Val, Weight;
    Modulus256(avg);
    avg.MulAssign32(n);
    avg.AddAssign(t);
    var divisor := new BaseUint(WIDTH);
    divisor.Assign(n + 1);
    var ok := avg.DivAssign(divisor);
  }

  /** Scales a target and cuts it to the limit. */
  method Retarget(bnNew: BaseUint, actual: int, timespan: nat, powLimit: BaseUint) returns (r: nat)
    requires Is256(bnNew) && Is256(powLimit) && bnNew != powLimit && bnNew.pn != powLimit.pn && 0 < timespan < TWO64
    modifies bnNew.pn
    ensures old(Retargeted(bnNew.Value(), actual, timespan)) >= 0 && powLimit.Value() >= 0
    ensures r == Encoded(Min(old(Retargeted(bnNew.Value(), actual, timespan)), powLimit.Value()), false)
  {
    hide Pow2, Val, Weight, Encoded;
    Modulus256(bnNew);
    bnNew.MulAssign32(actual % BASE);
    var divisor := new BaseUint(WIDTH);
    divisor.Assign(timespan);
    var ok := bnNew.DivAssign(divisor);
    Modulus256(bnNew);
    Modulus256(powLimit);
    var c := bnNew.CompareTo(powLimit);
    if c > 0 {
      r := GetCompact(powLimit, false);
    } else {
      r := GetCompact(bnNew, false);
    }
  }

  method DarkGravityWave(b: BlockIndex, blockTime: int, p: Params, powLimit: BaseUint, kawpowLimit: BaseUint)
    returns (r: nat)
    requires Linked(b) && p.nPowTargetSpacing > 0 && PAST_BLOCKS * p.nPowTargetSpacing < TWO64
    requires b.nHeight >= PAST_BLOCKS ==> forall i | 1 <= i <= PAST_BLOCKS :: Back(b, i).nBits < BASE
    requires Is256(powLimit) && Is256(kawpowLimit)
    ensures powLimit.Value() >= 0 && kawpowLimit.Value() >= 0
    ensures r == Dgw(b, blockTime, p, powLimit.Value(), kawpowLimit.Value())
  {
    hide Pow2, Average, KawpowFound, Encoded, Val;
    var nProofOfWorkLimit := GetCompact(powLimit, false);
    Modulus256(powLimit);
    Modulus256(kawpowLimit);
    if b.nHeight < PAST_BLOCKS {
      return nProofOfWorkLimit;
    }
    if p.fPowAllowMinDifficultyBlocks && blockTime > b.nTime + p.nPowTargetSpacing * 2 {
      return nProofOfWorkLimit;
    }
    var avg, first, found := WindowAverage(b, p.nKAWPOWActivationTime);
    if blockTime >= p.nKAWPOWActivationTime && found != PAST_BLOCKS {
      r := GetCompact(kawpowLimit, false);
      return;
    }
    var timespan := PAST_BLOCKS * p.nPowTargetSpacing;
    var actual := Clamp(b.nTime - first.nTime, timespan / 3, timespan * 3);
    r := Retarget(avg, actual, timespan, powLimit);
  }

  /** The time the older rule goes by. */
  function NextActual(b: BlockIndex, nFirstBlockTime: int, p: Params): int {
    Clamp(b.nTime - nFirstBlockTime, p.nPowTargetTimespan / 4, p.nPowTargetTimespan * 4)
  }

  /** The older rule: one step per interval, within a factor of four. */
  ghost function NextWork(b: BlockIndex, nFirstBlockTime: int, p: Params, powLimit: nat): int
    requires p.nPowTargetTimespan > 0
  {
    if p.fPowNoRetargeting then b.nBits
    else
      var actual := NextActual(b, nFirstBlockTime, p);
      Encoded(Min(Retargeted(Target(b), actual, p.nPowTargetTimespan), powLimit), false)
  }

  method CalculateNextWorkRequired(b: BlockIndex, nFirstBlockTime: int, p: Params, powLimit: BaseUint) returns (r: nat)
    requires 0 < p.nPowTargetTimespan < TWO64 && b.nBits < BASE && Is256(powLimit)
    ensures powLimit.Value() >= 0 && r == NextWork(b, nFirstBlockTime, p, powLimit.Value())
  {
    hide Pow2, Encoded, Val, Decoded;
    Modulus256(powLimit);
    if p.fPowNoRetargeting {
      return b.nBits;
    }
    var actual := Clamp(b.nTime - nFirstBlockTime, p.nPowTargetTimespan / 4, p.nPowTargetTimespan * 4);
    var bnNew := new BaseUint(WIDTH);
    var fNegative, fOverflow := SetCompact(bnNew, b.nBits);
    r := Retarget(bnNew, actual, p.nPowTargetTimespan, powLimit);
  }

  /** The older rule: always a target without sign or overflow, no easier than the limit; and within a factor
      of four of the old one, up to compact rounding, if the product of the two fits. */
  lemma NextWorkSound(b: BlockIndex, nFirstBlockTime: int, p: Params, powLimit: nat)
    requires p.nPowTargetTimespan > 0 && p.nPowTargetTimespan % 4 == 0 && !p.fPowNoRetargeting
    requires 4 * p.nPowTargetTimespan < BASE && powLimit < Pow2(256)
    ensures var r := NextWork(b, nFirstBlockTime, p, powLimit);
            0 <= r < BASE && !Sign(r) && 0 <= Decoded(r) <= powLimit
    ensures Target(b) * NextActual(b, nFirstBlockTime, p) < Pow2(256) ==>
              var r := NextWork(b, nFirstBlockTime, p, powLimit);
              Rounded(Min(Target(b) / 4, powLimit)) <= Decoded(r) <= Min(4 * Target(b), powLimit)
  {
    hide Pow2, Encoded, Decoded, Sign, Rounded;
    var t, span := Target(b), p.nPowTargetTimespan;
    TargetNotNegative(b);
    var x := Min(Retargeted(t, NextActual(b, nFirstBlockTime, p), span), powLimit);
    CompactBelow(x, powLimit);
    if t * NextActual(b, nFirstBlockTime, p) < Pow2(256) {
      RetargetRounded(t, b.nTime - nFirstBlockTime, span, 4, powLimit);
    }
  }

  /** The older rule: the target scaled by the time the interval took over the time it should take, within a
      factor of four, cut to the limit, and rounded; or the same bits where targets stay. */
  lemma NextWorkIs(b: BlockIndex, nFirstBlockTime: int, p: Params, powLimit: nat)
    requires p.nPowTargetTimespan > 0 && p.nPowTargetTimespan % 4 == 0
    requires 4 * p.nPowTargetTimespan < BASE && powLimit < Pow2(256)
    requires Target(b) * NextActual(b, nFirstBlockTime, p) < Pow2(256)
    ensures var r, t, span := NextWork(b, nFirstBlockTime, p, powLimit), Target(b), p.nPowTargetTimespan;
            if p.fPowNoRetargeting then r == b.nBits
            else
              var scaled := t * Within(b.nTime - nFirstBlockTime, span / 4, 4 * span) / span;
              0 <= scaled && 0 <= r && Decoded(r) == Rounded(Min(scaled, powLimit))
  {
    hide Pow2, Encoded, Decoded, Rounded;
    TargetNotNegative(b);
    RetargetRounded(Target(b), b.nTime - nFirstBlockTime, p.nPowTargetTimespan, 4, powLimit);
  }

  /** It fits with a target up to a limit that leaves room for the longest timespan. */
  lemma NextWorkFits(b: BlockIndex, nFirstBlockTime: int, p: Params, powLimit: nat)
    requires Target(b) <= powLimit && powLimit * (4 * p.nPowTargetTimespan) < Pow2(256)
    ensures Target(b) * NextActual(b, nFirstBlockTime, p) < Pow2(256)
  {
    hide Pow2;
    var t, longest, actual := Target(b), 4 * p.nPowTargetTimespan, NextActual(b, nFirstBlockTime, p);
    TargetNotNegative(b);
    MulMono(t, powLimit, longest);
    MulMono(actual, longest, t);
    assert actual * t == t * actual && longest * t == t * longest;
  }

  lemma RoundsTo(x: nat)
    ensures Encoded(x, false) >= 0 && Decoded(Encoded(x, false)) == Rounded(x)
  {
    EncodedParts(x, false);
  }

  /** A hash meets its claimed target, and the target is a valid one. */
  method CheckProofOfWork(hash: BaseUint, nBits: nat, powLimit: BaseUint) returns (ok: bool)
    requires Is256(hash) && Is256(powLimit) && nBits < BASE
    ensures ok <==> && !Sign(nBits) && 0 < Decoded(nBits) <= powLimit.Value() && hash.Value() <= Decoded(nBits)
  {
    hide Pow2, Val, Decoded, Sign;
    var bnTarget := new BaseUint(WIDTH);
    var fNegative, fOverflow := SetCompact(bnTarget, nBits);
    var zero := new BaseUint(WIDTH);
    var isZero := bnTarget.CompareTo(zero);
    var overLimit := bnTarget.CompareTo(powLimit);
    Modulus256(bnTarget);
    Modulus256(powLimit);
    if !fOverflow {
      SmallMod(Decoded(nBits), Pow2(256));
    }
    if fNegative || isZero == 0 || fOverflow || overLimit > 0 {
      return false;
    }
    var c := hash.CompareTo(bnTarget);
    return c <= 0;
  }
}
