/** The contents of a cuckoo cache and what an insertion does to them (cuckoocache.h). */
module CuckooTable {
  import opened Numbers

  const TWO32 := 0x1_0000_0000
  const LOCATIONS := 8

  /** One slot: its element, whether it may be collected, and whether it is of the current epoch. */
  datatype Cell<T> = Cell(item: T, garbage: bool, recent: bool)

  type Table<T> = seq<Cell<T>>

  // --- Counting slots -----------------------------------------------------------------------

  function Bit(b: bool): nat { if b then 1 else 0 }

  function Count<T>(s: Table<T>, p: Cell<T> -> bool): nat {
    if s == [] then 0 else Count(s[..|s| - 1], p) + Bit(p(s[|s| - 1]))
  }

  function IsLive<T>(): Cell<T> -> bool { (c: Cell<T>) => !c.garbage }
  function IsRecent<T>(): Cell<T> -> bool { (c: Cell<T>) => !c.garbage && c.recent }
  function IsOld<T>(): Cell<T> -> bool { (c: Cell<T>) => !c.garbage && !c.recent }
  function Holds<T(==)>(x: T): Cell<T> -> bool { (c: Cell<T>) => c.item == x }
  function HoldsLive<T(==)>(x: T): Cell<T> -> bool { (c: Cell<T>) => !c.garbage && c.item == x }

  lemma {:induction false} CountUpdate<T>(s: Table<T>, i: nat, v: Cell<T>, p: Cell<T> -> bool)
    requires i < |s|
    ensures Count(s[i := v], p) + Bit(p(s[i])) == Count(s, p) + Bit(p(v))
  {
    var t := s[i := v];
    if i == |s| - 1 {
      assert t[..|s| - 1] == s[..|s| - 1];
    } else {
      assert t[..|s| - 1] == s[..|s| - 1][i := v];
      CountUpdate(s[..|s| - 1], i, v, p);
    }
  }

  lemma {:induction false} CountNone<T>(s: Table<T>, p: Cell<T> -> bool)
    requires forall i | 0 <= i < |s| :: !p(s[i])
    ensures Count(s, p) == 0
  {
    if s != [] {
      CountNone(s[..|s| - 1], p);
    }
  }

  lemma {:induction false} CountSame<T>(s: Table<T>, t: Table<T>, p: Cell<T> -> bool, q: Cell<T> -> bool)
    requires |s| == |t| && forall i | 0 <= i < |s| :: p(s[i]) == q(t[i])
    ensures Count(s, p) == Count(t, q)
  {
    if s != [] {
      CountSame(s[..|s| - 1], t[..|t| - 1], p, q);
    }
  }

  /** A slot that counts makes the count positive. */
  lemma {:induction false} CountWitness<T>(s: Table<T>, p: Cell<T> -> bool)
    requires Count(s, p) > 0
    ensures exists i | 0 <= i < |s| :: p(s[i])
  {
    if !p(s[|s| - 1]) {
      CountWitness(s[..|s| - 1], p);
      var i :| 0 <= i < |s| - 1 && p(s[..|s| - 1][i]);
      assert p(s[i]);
    }
  }

  lemma {:induction false} CountSplit<T>(s: Table<T>)
    ensures Count(s, IsLive()) == Count(s, IsRecent()) + Count(s, IsOld())
  {
    if s != [] {
      CountSplit(s[..|s| - 1]);
    }
  }

  // --- Locations ----------------------------------------------------------------------------

  type Hasher<!T> = (nat, T) -> nat

  /** The k-th location of an element: the 32-bit hash as a fraction of the table. */
  function Loc<T>(h: Hasher<T>, size: nat, e: T, k: nat): (loc: nat)
    ensures size > 0 ==> loc < size
  {
    var hash := h(k, e) % TWO32;
    FractionFits(hash, size);
    hash * size / TWO32
  }

  lemma FractionFits(hash: nat, size: nat)
    requires hash < TWO32
    ensures 0 <= hash * size / TWO32 && (size > 0 ==> hash * size / TWO32 < size)
  {
    MulMono(0, hash, size);
    if size > 0 {
      MulMono(hash, TWO32 - 1, size);
      QuotientBelow(hash * size, hash * size / TWO32, TWO32, size);
    }
  }

  /** The location is as far into the table as the k-th hash of the element into its range. */
  lemma LocIs<T>(h: Hasher<T>, size: nat, e: T, k: nat)
    ensures var loc, hash := Loc(h, size, e, k), h(k, e) % TWO32; loc * TWO32 <= hash * size < (loc + 1) * TWO32
  {
    DivBounds(h(k, e) % TWO32 * size, TWO32);
  }

  predicate IsLoc<T>(h: Hasher<T>, size: nat, e: T, loc: int) {
    exists k: nat | k < LOCATIONS :: Loc(h, size, e, k) == loc
  }

  /** Every slot that may not be collected is one of its element's locations. */
  ghost predicate InPlace<T>(h: Hasher<T>, s: Table<T>) {
    forall i | 0 <= i < |s| :: !s[i].garbage ==> IsLoc(h, |s|, s[i].item, i)
  }

  /** An element is found where a lookup looks for it. */
  predicate Present<T(==)>(h: Hasher<T>, s: Table<T>, e: T)
    requires |s| > 0
  {
    exists k: nat | k < LOCATIONS :: s[Loc(h, |s|, e, k)].item == e
  }

  /** A lookup misses no element that may not be collected. */
  lemma LiveIsPresent<T>(h: Hasher<T>, s: Table<T>, e: T)
    requires |s| > 0 && InPlace(h, s) && Count(s, HoldsLive(e)) > 0
    ensures Present(h, s, e)
  {
    CountWitness(s, HoldsLive(e));
    var i :| 0 <= i < |s| && HoldsLive(e)(s[i]);
    assert IsLoc(h, |s|, s[i].item, i);
  }

  // --- Insertion ----------------------------------------------------------------------------

  /** The first of the locations from the k-th on whose slot may be collected, or 8. */
  function FirstFree<T>(h: Hasher<T>, s: Table<T>, e: T, k: nat): (r: nat)
    requires |s| > 0 && k <= LOCATIONS
    ensures r <= LOCATIONS
    ensures r < LOCATIONS ==> s[Loc(h, |s|, e, r)].garbage
    ensures forall j: nat | k <= j < r :: !s[Loc(h, |s|, e, j)].garbage
    decreases LOCATIONS - k
  {
    if k == LOCATIONS then k
    else if s[Loc(h, |s|, e, k)].garbage then k
    else FirstFree(h, s, e, k + 1)
  }

  /** The first location from the k-th on that is `loc`, or 8. */
  function FindLoc<T>(h: Hasher<T>, size: nat, e: T, loc: int, k: nat): (r: nat)
    requires k <= LOCATIONS
    ensures r <= LOCATIONS && (r < LOCATIONS ==> Loc(h, size, e, r) == loc)
    ensures forall j: nat | k <= j < r :: Loc(h, size, e, j) != loc
    decreases LOCATIONS - k
  {
    if k == LOCATIONS then k
    else if Loc(h, size, e, k) == loc then k
    else FindLoc(h, size, e, loc, k + 1)
  }

  /** Which of an element's locations is used to displace another, after `lastLoc`. */
  function NextLoc<T>(h: Hasher<T>, size: nat, e: T, lastLoc: int): (loc: nat)
    ensures IsLoc(h, size, e, loc)
  {
    Loc(h, size, e, (1 + FindLoc(h, size, e, lastLoc, 0)) % 8)
  }

  /** The mark of "no location yet" is no location, and the search for it ends behind the last: so the
      first displaced location is the second of the eight. */
  lemma FirstDisplaced<T>(h: Hasher<T>, size: nat, e: T)
    requires 0 < size < TWO32
    ensures NextLoc(h, size, e, TWO32 - 1) == Loc(h, size, e, 1)
  {
    assert FindLoc(h, size, e, TWO32 - 1, 0) == LOCATIONS;
  }

  /** The element just put in at `loc` is moved again exactly if the location that follows the first `loc`
      among those of the displaced element is the same one. */
  lemma MovedAgainIff<T>(h: Hasher<T>, size: nat, e: T, k: nat)
    requires k < LOCATIONS && forall j: nat | j < k :: Loc(h, size, e, j) != Loc(h, size, e, k)
    ensures var loc := Loc(h, size, e, k); NextLoc(h, size, e, loc) == loc <==> Loc(h, size, e, (k + 1) % 8) == loc
  {
    assert FindLoc(h, size, e, Loc(h, size, e, k), 0) == k;
  }

  /** How an insertion ends: the element was there, it got a slot that could be collected, or an
      element is left over. */
  datatype Ending<T> =
    | Kept(table: Table<T>)
    | Placed(table: Table<T>, overwritten: T)
    | Dropped(table: Table<T>, item: T, recent: bool)

  /** The displacement chain from element `e`, with at most `depth` steps. */
  function Displaced<T>(h: Hasher<T>, s: Table<T>, e: T, lastLoc: int, recent: bool, depth: nat): (r: Ending<T>)
    requires |s| > 0
    decreases depth
  {
    if depth == 0 then Dropped(s, e, recent)
    else
      var free := FirstFree(h, s, e, 0);
      if free < LOCATIONS then
        var loc := Loc(h, |s|, e, free);
        Placed(s[loc := Cell(e, false, recent)], s[loc].item)
      else
        var loc := NextLoc(h, |s|, e, lastLoc);
        Displaced(h, s[loc := Cell(e, s[loc].garbage, recent)], s[loc].item, loc, s[loc].recent, depth - 1)
  }

  /** The chain keeps every element at one of its locations. */
  lemma {:induction false} DisplacedInPlace<T>(h: Hasher<T>, s: Table<T>, e: T, lastLoc: int, recent: bool, depth: nat)
    requires |s| > 0 && InPlace(h, s)
    ensures var r := Displaced(h, s, e, lastLoc, recent, depth); |r.table| == |s| && InPlace(h, r.table)
    decreases depth
  {
    hide Loc;
    if depth > 0 && FirstFree(h, s, e, 0) == LOCATIONS {
      var loc := NextLoc(h, |s|, e, lastLoc);
      DisplacedInPlace(h, s[loc := Cell(e, s[loc].garbage, recent)], s[loc].item, loc, s[loc].recent, depth - 1);
    }
  }

  /** What a count gains and loses: the slot of `e` is added; a slot that could be collected, or the
      slot of the element left over, is given up. */
  lemma {:induction false} DisplacedCount<T>(h: Hasher<T>, s: Table<T>, e: T, lastLoc: int, recent: bool, depth: nat,
                                             p: Cell<T> -> bool)
    requires |s| > 0
    ensures var r := Displaced(h, s, e, lastLoc, recent, depth);
            match r
            case Kept(t) => false
            case Placed(t, x) =>
              exists was: bool :: Count(t, p) + Bit(p(Cell(x, true, was))) ==
                  Count(s, p) + Bit(p(Cell(e, false, recent)))
            case Dropped(t, x, last) =>
              Count(t, p) + Bit(p(Cell(x, false, last))) == Count(s, p) + Bit(p(Cell(e, false, recent)))
    decreases depth
  {
    hide Loc;
    if depth > 0 {
      var free := FirstFree(h, s, e, 0);
      if free < LOCATIONS {
        var loc := Loc(h, |s|, e, free);
        CountUpdate(s, loc, Cell(e, false, recent), p);
        assert s[loc] == Cell(s[loc].item, true, s[loc].recent);
      } else {
        var loc := NextLoc(h, |s|, e, lastLoc);
        assert !s[loc].garbage;
        CountUpdate(s, loc, Cell(e, false, recent), p);
        assert s[loc] == Cell(s[loc].item, false, s[loc].recent);
        DisplacedCount(h, s[loc := Cell(e, false, recent)], s[loc].item, loc, s[loc].recent, depth - 1, p);
      }
    }
  }

  /** The first location from the k-th on that holds the element, or 8. */
  function FirstMatch<T(==)>(h: Hasher<T>, s: Table<T>, e: T, k: nat): (r: nat)
    requires |s| > 0 && k <= LOCATIONS
    ensures r <= LOCATIONS && (r < LOCATIONS ==> s[Loc(h, |s|, e, r)].item == e)
    ensures forall j: nat | k <= j < r :: s[Loc(h, |s|, e, j)].item != e
    decreases LOCATIONS - k
  {
    if k == LOCATIONS then k
    else if s[Loc(h, |s|, e, k)].item == e then k
    else FirstMatch(h, s, e, k + 1)
  }

  function Inserted<T(==)>(h: Hasher<T>, s: Table<T>, e: T, depthLimit: nat): (r: Ending<T>)
    requires |s| > 0
  {
    var k := FirstMatch(h, s, e, 0);
    if k < LOCATIONS then Kept(s[Loc(h, |s|, e, k) := Cell(e, false, true)])
    else Displaced(h, s, e, TWO32 - 1, true, depthLimit)
  }

  /** An element that was there already is kept and nothing else changes. */
  lemma KeptIff<T>(h: Hasher<T>, s: Table<T>, e: T, depthLimit: nat)
    requires |s| > 0
    ensures Inserted(h, s, e, depthLimit).Kept? <==> Present(h, s, e)
  {
    hide Loc;
    if FirstMatch(h, s, e, 0) == LOCATIONS {
      DisplacedCount(h, s, e, TWO32 - 1, true, depthLimit, IsLive());
    }
  }

  /** The stored elements: unchanged, or the new one comes and exactly one goes. */
  lemma InsertItems<T>(h: Hasher<T>, s: Table<T>, e: T, depthLimit: nat, x: T)
    requires |s| > 0
    ensures match Inserted(h, s, e, depthLimit)
            case Kept(t) => Count(t, Holds(x)) == Count(s, Holds(x))
            case Placed(t, gone) => Count(t, Holds(x)) + Bit(x == gone) == Count(s, Holds(x)) + Bit(x == e)
            case Dropped(t, gone, recent) => Count(t, Holds(x)) + Bit(x == gone) == Count(s, Holds(x)) + Bit(x == e)
  {
    hide Loc, Count;
    var k := FirstMatch(h, s, e, 0);
    if k < LOCATIONS {
      CountUpdate(s, Loc(h, |s|, e, k), Cell(e, false, true), Holds(x));
    } else {
      DisplacedCount(h, s, e, TWO32 - 1, true, depthLimit, Holds(x));
    }
  }

  /** The elements that may not be collected: the new one comes, and only running out of depth
      costs another. */
  lemma InsertLive<T>(h: Hasher<T>, s: Table<T>, e: T, depthLimit: nat, x: T)
    requires |s| > 0
    ensures match Inserted(h, s, e, depthLimit)
            case Kept(t) =>
              Count(s, HoldsLive(x)) <= Count(t, HoldsLive(x)) <= Count(s, HoldsLive(x)) + Bit(x == e)
            case Placed(t, gone) => Count(t, HoldsLive(x)) == Count(s, HoldsLive(x)) + Bit(x == e)
            case Dropped(t, gone, recent) =>
              Count(t, HoldsLive(x)) + Bit(x == gone) == Count(s, HoldsLive(x)) + Bit(x == e)
  {
    hide Loc, Count;
    var k := FirstMatch(h, s, e, 0);
    if k < LOCATIONS {
      CountUpdate(s, Loc(h, |s|, e, k), Cell(e, false, true), HoldsLive(x));
    } else {
      DisplacedCount(h, s, e, TWO32 - 1, true, depthLimit, HoldsLive(x));
    }
  }

  /** An insertion adds at most one slot to the current epoch and none to the old one. */
  lemma InsertEpochs<T>(h: Hasher<T>, s: Table<T>, e: T, depthLimit: nat)
    requires |s| > 0
    ensures var t := Inserted(h, s, e, depthLimit).table;
            Count(t, IsRecent()) <= Count(s, IsRecent()) + 1 && Count(t, IsOld()) <= Count(s, IsOld())
  {
    hide Loc, Count;
    var k := FirstMatch(h, s, e, 0);
    if k < LOCATIONS {
      CountUpdate(s, Loc(h, |s|, e, k), Cell(e, false, true), IsRecent());
      CountUpdate(s, Loc(h, |s|, e, k), Cell(e, false, true), IsOld());
    } else {
      DisplacedCount(h, s, e, TWO32 - 1, true, depthLimit, IsRecent());
      DisplacedCount(h, s, e, TWO32 - 1, true, depthLimit, IsOld());
    }
  }

  /** Two elements with one location: the second displaces the first, is displaced by it and is lost. */
  lemma MovedAgainExample()
    ensures var h: Hasher<nat> := (_: nat, _: nat) => 0;
            var empty: Table<nat> := seq(4, _ => Cell(0, true, false));
            var r := Inserted(h, empty, 1, 2);
            && r == Placed(empty[0 := Cell(1, false, true)], 0)
            && Inserted(h, r.table, 2, 2) == Dropped(r.table, 2, true)
  {
    var h: Hasher<nat> := (_: nat, _: nat) => 0;
    var empty: Table<nat> := seq(4, _ => Cell(0, true, false));
    var s := empty[0 := Cell(1, false, true)];
    assert forall e: nat, k: nat :: Loc(h, 4, e, k) == 0;
    assert FirstMatch(h, empty, 1, 0) == LOCATIONS && FirstFree(h, empty, 1, 0) == 0;
    assert FirstMatch(h, s, 2, 0) == LOCATIONS && FirstFree(h, s, 2, 0) == LOCATIONS;
    var t := s[0 := Cell(2, false, true)];
    assert FirstFree(h, t, 1, 0) == LOCATIONS;
    assert t[0 := Cell(1, false, true)] == s;
    assert Displaced(h, t, 1, 0, true, 1) == Dropped(s, 2, true);
  }

  lemma InsertInPlace<T>(h: Hasher<T>, s: Table<T>, e: T, depthLimit: nat)
    requires |s| > 0 && InPlace(h, s)
    ensures var t := Inserted(h, s, e, depthLimit).table; |t| == |s| && InPlace(h, t)
  {
    hide Loc;
    if FirstMatch(h, s, e, 0) == LOCATIONS {
      DisplacedInPlace(h, s, e, TWO32 - 1, true, depthLimit);
    }
  }

  /** After an insertion a lookup finds the element, unless it is the one left over. */
  lemma InsertFound<T>(h: Hasher<T>, s: Table<T>, e: T, depthLimit: nat)
    requires |s| > 0 && InPlace(h, s)
    ensures var r := Inserted(h, s, e, depthLimit);
            |r.table| == |s| && (Present(h, r.table, e) || (r.Dropped? && r.item == e))
  {
    hide Loc, Count;
    var r := Inserted(h, s, e, depthLimit);
    InsertInPlace(h, s, e, depthLimit);
    KeptIff(h, s, e, depthLimit);
    if FirstMatch(h, s, e, 0) < LOCATIONS {
      assert r.table[Loc(h, |s|, e, FirstMatch(h, s, e, 0))].item == e;
    } else {
      InsertLive(h, s, e, depthLimit, e);
      if !(r.Dropped? && r.item == e) {
        LiveIsPresent(h, r.table, e);
      }
    }
  }

  function IsFresh<T(==)>(e: T): Cell<T> -> bool { (c: Cell<T>) => c == Cell(e, false, true) }

  /** After an insertion the element is in a slot of the current epoch that may not be collected, unless it is the
      one left over. */
  lemma InsertFresh<T>(h: Hasher<T>, s: Table<T>, e: T, depthLimit: nat)
    requires |s| > 0
    ensures var r := Inserted(h, s, e, depthLimit);
            (r.Dropped? && r.item == e) || exists i | 0 <= i < |r.table| :: r.table[i] == Cell(e, false, true)
  {
    hide Loc, Count;
    var r, k := Inserted(h, s, e, depthLimit), FirstMatch(h, s, e, 0);
    if k < LOCATIONS {
      assert r.table[Loc(h, |s|, e, k)] == Cell(e, false, true);
    } else if !(r.Dropped? && r.item == e) {
      DisplacedCount(h, s, e, TWO32 - 1, true, depthLimit, IsFresh(e));
      CountWitness(r.table, IsFresh(e));
    }
  }

  /** Where a chain of displacements stands: the table, the element in hand, where it was and its epoch. */
  datatype Chain<T> = Chain(table: Table<T>, item: T, lastLoc: int, recent: bool)

  /** After some displacements. */
  function ChainAt<T>(h: Hasher<T>, s: Table<T>, e: T, lastLoc: int, recent: bool, n: nat): (c: Chain<T>)
    requires |s| > 0
    ensures |c.table| == |s|
  {
    if n == 0 then Chain(s, e, lastLoc, recent)
    else
      var c := ChainAt(h, s, e, lastLoc, recent, n - 1);
      var loc := NextLoc(h, |s|, c.item, c.lastLoc);
      Chain(c.table[loc := Cell(c.item, c.table[loc].garbage, c.recent)], c.table[loc].item, loc, c.table[loc].recent)
  }

  predicate Stuck<T>(h: Hasher<T>, c: Chain<T>)
    requires |c.table| > 0
  {
    forall k: nat | k < LOCATIONS :: !c.table[Loc(h, |c.table|, c.item, k)].garbage
  }

  lemma {:induction false} ChainFrom<T>(h: Hasher<T>, s: Table<T>, e: T, lastLoc: int, recent: bool, n: nat)
    requires |s| > 0
    ensures var c := ChainAt(h, s, e, lastLoc, recent, 1);
            ChainAt(h, s, e, lastLoc, recent, n + 1) == ChainAt(h, c.table, c.item, c.lastLoc, c.recent, n)
  {
    hide Loc, NextLoc;
    if n > 0 {
      ChainFrom(h, s, e, lastLoc, recent, n - 1);
    }
  }

  /** No element in hand has a free location in so many displacements. */
  ghost predicate StuckFor<T>(h: Hasher<T>, s: Table<T>, e: T, lastLoc: int, recent: bool, n: nat)
    requires |s| > 0
  {
    forall j: nat | j < n :: Stuck(h, ChainAt(h, s, e, lastLoc, recent, j))
  }

  lemma StuckFrom<T>(h: Hasher<T>, s: Table<T>, e: T, lastLoc: int, recent: bool, n: nat)
    requires |s| > 0
    ensures var c := ChainAt(h, s, e, lastLoc, recent, 1);
            StuckFor(h, s, e, lastLoc, recent, n + 1) <==>
            Stuck(h, Chain(s, e, lastLoc, recent)) && StuckFor(h, c.table, c.item, c.lastLoc, c.recent, n)
  {
    hide Stuck, ChainAt;
    ChainStarts(h, s, e, lastLoc, recent);
    var c := ChainAt(h, s, e, lastLoc, recent, 1);
    if StuckFor(h, s, e, lastLoc, recent, n + 1) {
      forall j: nat | j < n
        ensures Stuck(h, ChainAt(h, c.table, c.item, c.lastLoc, c.recent, j))
      {
        ChainFrom(h, s, e, lastLoc, recent, j);
      }
    }
    if Stuck(h, Chain(s, e, lastLoc, recent)) && StuckFor(h, c.table, c.item, c.lastLoc, c.recent, n) {
      forall j: nat | j < n + 1
        ensures Stuck(h, ChainAt(h, s, e, lastLoc, recent, j))
      {
        if j > 0 {
          ChainFrom(h, s, e, lastLoc, recent, j - 1);
        }
      }
    }
  }

  lemma ChainStarts<T>(h: Hasher<T>, s: Table<T>, e: T, lastLoc: int, recent: bool)
    requires |s| > 0
    ensures ChainAt(h, s, e, lastLoc, recent, 0) == Chain(s, e, lastLoc, recent)
  {
  }

  /** An element is left over exactly if in as many displacements as allowed no element in hand has a free
      location; and it is the one then in hand. */
  lemma {:induction false} DroppedIff<T>(h: Hasher<T>, s: Table<T>, e: T, lastLoc: int, recent: bool, depth: nat)
    requires |s| > 0
    ensures var r, end := Displaced(h, s, e, lastLoc, recent, depth), ChainAt(h, s, e, lastLoc, recent, depth);
            && (r.Dropped? <==> StuckFor(h, s, e, lastLoc, recent, depth))
            && (r.Dropped? ==> r == Dropped(end.table, end.item, end.recent))
    decreases depth
  {
    hide Displaced, ChainAt, Stuck, StuckFor;
    if depth == 0 {
      StuckNever(h, s, e, lastLoc, recent);
    } else {
      var c := ChainAt(h, s, e, lastLoc, recent, 1);
      DisplacedStep(h, s, e, lastLoc, recent, depth);
      DroppedIff(h, c.table, c.item, c.lastLoc, c.recent, depth - 1);
      ChainFrom(h, s, e, lastLoc, recent, depth - 1);
      StuckFrom(h, s, e, lastLoc, recent, depth - 1);
    }
  }

  lemma StuckNever<T>(h: Hasher<T>, s: Table<T>, e: T, lastLoc: int, recent: bool)
    requires |s| > 0
    ensures StuckFor(h, s, e, lastLoc, recent, 0)
    ensures Displaced(h, s, e, lastLoc, recent, 0) == Dropped(s, e, recent)
    ensures ChainAt(h, s, e, lastLoc, recent, 0) == Chain(s, e, lastLoc, recent)
  {
  }

  lemma DisplacedStep<T>(h: Hasher<T>, s: Table<T>, e: T, lastLoc: int, recent: bool, depth: nat)
    requires |s| > 0 && depth > 0
    ensures var r, c := Displaced(h, s, e, lastLoc, recent, depth), ChainAt(h, s, e, lastLoc, recent, 1);
            if Stuck(h, Chain(s, e, lastLoc, recent))
            then r == Displaced(h, c.table, c.item, c.lastLoc, c.recent, depth - 1) else r.Placed?
  {
    hide Loc, NextLoc, Stuck;
    FreeIff(h, s, e, lastLoc, recent);
    ChainStarts(h, s, e, lastLoc, recent);
  }

  lemma FreeIff<T>(h: Hasher<T>, s: Table<T>, e: T, lastLoc: int, recent: bool)
    requires |s| > 0
    ensures FirstFree(h, s, e, 0) == LOCATIONS <==> Stuck(h, Chain(s, e, lastLoc, recent))
  {
    hide Loc;
  }

  // --- Epochs -------------------------------------------------------------------------------

  /** The current epoch becomes the old one, and the old one may be collected. */
  function Aged<T>(s: Table<T>): (r: Table<T>)
    ensures |r| == |s|
  {
    seq(|s|, i requires 0 <= i < |s| => Cell(s[i].item, s[i].garbage || !s[i].recent, false))
  }

  lemma AgedCounts<T>(s: Table<T>)
    ensures Count(Aged(s), IsRecent()) == 0 && Count(Aged(s), IsOld()) == Count(s, IsRecent())
  {
    CountNone(Aged(s), IsRecent());
    CountSame(s, Aged(s), IsRecent(), IsOld());
  }

  function Max(a: nat, b: nat): nat { if a < b then b else a }

  datatype Epoch<T> = Epoch(table: Table<T>, counter: nat)

  function EpochStep<T>(s: Table<T>, counter: nat, epochSize: nat): Epoch<T> {
    if counter != 0 then Epoch(s, counter - 1)
    else
      var unused := Count(s, IsRecent());
      if unused >= epochSize then Epoch(Aged(s), epochSize)
      else Epoch(s, Max(1, Max(epochSize / 16, epochSize - unused)))
  }

  /** A scan ages the epoch exactly if it is full. Otherwise the next scan comes when it can be full at the
      earliest, and not before a sixteenth of an epoch, nor later than that asks for. */
  lemma EpochStepIs<T>(s: Table<T>, epochSize: nat)
    requires epochSize > 0
    ensures var r, recent := EpochStep(s, 0, epochSize), Count(s, IsRecent());
            if recent >= epochSize then r.table == Aged(s) && r.counter == epochSize
            else
              && r.table == s && r.counter >= 1 && 16 * r.counter + 15 >= epochSize
              && recent + r.counter >= epochSize
              && (r.counter == 1 || 16 * r.counter <= epochSize || recent + r.counter == epochSize)
  {
    hide Count;
  }

  /** The most slots one epoch can hold that may not be collected. */
  function EpochBound(epochSize: nat): nat {
    epochSize + Max(1, epochSize / 16)
  }

  /** The current epoch cannot outgrow its bound before the next scan, and the old one has not. */
  predicate Bounded<T>(s: Table<T>, counter: nat, epochSize: nat) {
    && Count(s, IsRecent()) + counter <= EpochBound(epochSize)
    && Count(s, IsOld()) <= EpochBound(epochSize)
  }

  lemma EpochStepLeavesRoom<T>(s: Table<T>, counter: nat, epochSize: nat)
    requires Bounded(s, counter, epochSize) && epochSize >= 1
    ensures var r := EpochStep(s, counter, epochSize); |r.table| == |s| && Bounded(r.table, r.counter + 1, epochSize)
  {
    hide Count;
    AgedCounts(s);
  }

  lemma InsertBounded<T>(h: Hasher<T>, s: Table<T>, e: T, depthLimit: nat, counter: nat, epochSize: nat)
    requires |s| > 0 && Bounded(s, counter + 1, epochSize)
    ensures Bounded(Inserted(h, s, e, depthLimit).table, counter, epochSize)
  {
    InsertEpochs(h, s, e, depthLimit);
  }

  lemma BoundedLive<T>(s: Table<T>, counter: nat, epochSize: nat)
    requires Bounded(s, counter, epochSize)
    ensures Count(s, IsRecent()) <= EpochBound(epochSize) && Count(s, IsLive()) <= 2 * EpochBound(epochSize)
  {
    CountSplit(s);
  }

  lemma AgedInPlace<T>(h: Hasher<T>, s: Table<T>)
    requires InPlace(h, s)
    ensures InPlace(h, Aged(s))
  {
  }
}
