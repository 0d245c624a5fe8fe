/** The cuckoo cache and its bit-packed collection flags, updated in place (cuckoocache.h). */
module Cuckoo {
  import opened ByteBits
  import opened CuckooTable

  class BitPackedFlags {
    const mem: array<bv8>

    constructor (size: nat)
      ensures Fits(size) && fresh(mem)
      ensures forall s: nat | s < size :: IsSet(s)
    {
      var n := (size + 7) / 8;
      mem := new bv8[n](_ => 0xff);
      new;
      forall s: nat | s < size
        ensures IsSet(s)
      {
        ZeroByte(s % 8);
      }
    }

    predicate Fits(size: nat) {
      size <= 8 * mem.Length
    }

    predicate IsSet(s: nat)
      requires Fits(s + 1)
      reads mem
    {
      BitOf(mem[s / 8], s % 8)
    }

    method BitSet(s: nat)
      requires Fits(s + 1)
      modifies mem
      ensures forall j: nat | Fits(j + 1) :: IsSet(j) <==> j == s || old(IsSet(j))
    {
      forall j: nat | j < 8 {
        SetBit(mem[s / 8], s % 8, j);
      }
      mem[s / 8] := mem[s / 8] | (1 << (s % 8));
      assert forall j: nat :: j == 8 * (j / 8) + j % 8;
    }

    method BitUnset(s: nat)
      requires Fits(s + 1)
      modifies mem
      ensures forall j: nat | Fits(j + 1) :: IsSet(j) <==> j != s && old(IsSet(j))
    {
      forall j: nat | j < 8 {
        ClearBit(mem[s / 8], s % 8, j);
      }
      mem[s / 8] := mem[s / 8] & !(1 << (s % 8));
      assert forall j: nat :: j == 8 * (j / 8) + j % 8;
    }
  }

  class Cache<T(==)> {
    const h: Hasher<T>
    const size: nat
    const epochSize: nat
    const depthLimit: nat
    const table: array<T>
    const flags: BitPackedFlags
    const epochFlags: array<bool>
    var counter: nat

    ghost predicate Shaped() {
      && size >= 2 && epochSize >= 1 && depthLimit >= 1
      && table.Length == size == epochFlags.Length && flags.Fits(size)
      && table as object != epochFlags as object && table as object != flags.mem as object
      && epochFlags as object != flags.mem as object
    }

    ghost function View(): (r: Table<T>)
      requires Shaped()
      reads table, flags.mem, epochFlags
      ensures |r| == size
    {
      seq(size, i requires 0 <= i < size reads table, flags.mem, epochFlags =>
        Cell(table[i], flags.IsSet(i), epochFlags[i]))
    }

    /** Elements are where lookups find them, and the epochs are within bounds. */
    ghost predicate Valid()
      reads this, table, flags.mem, epochFlags
    {
      Shaped() && InPlace(h, View()) && Bounded(View(), counter, epochSize)
    }

    /** The cache after setup: every slot may be collected. */
    constructor (h: Hasher<T>, newSize: nat, depthLimit: nat, blank: T)
      requires newSize < TWO32 && depthLimit >= 1
      ensures Valid() && size == Max(2, newSize) && epochSize == Max(1, 45 * size % TWO32 / 100)
      ensures counter == epochSize && Count(View(), IsLive()) == 0
      ensures this.h == h && this.depthLimit == depthLimit && fresh(table) && fresh(flags.mem) && fresh(epochFlags)
    {
      var n := Max(2, newSize);
      var f := new BitPackedFlags(n);
      this.h, this.depthLimit, size, flags := h, depthLimit, n, f;
      epochSize := Max(1, 45 * n % TWO32 / 100);
      counter := Max(1, 45 * n % TWO32 / 100);
      table := new T[n](_ => blank);
      epochFlags := new bool[n](_ => false);
      new;
      CountNone(View(), IsLive());
      CountNone(View(), IsRecent());
      CountNone(View(), IsOld());
    }

    method AllowErase(n: nat)
      requires Shaped() && n < size
      modifies flags.mem
      ensures View() == old(View())[n := old(View()[n]).(garbage := true)]
    {
      flags.BitSet(n);
    }

    method PleaseKeep(n: nat)
      requires Shaped() && n < size
      modifies flags.mem
      ensures View() == old(View())[n := old(View()[n]).(garbage := false)]
    {
      flags.BitUnset(n);
    }

    /** The number of slots of the current epoch that may not be collected. */
    method CountRecent() returns (unused: nat)
      requires Shaped()
      ensures unused == Count(View(), IsRecent())
    {
      ghost var s := View();
      unused := 0;
      var i := 0;
      while i < size
        invariant 0 <= i <= size && unused == Count(s[..i], IsRecent()) && View() == s
      {
        assert s[..i + 1][..i] == s[..i];
        if epochFlags[i] && !flags.IsSet(i) {
          unused := unused + 1;
        }
        i := i + 1;
      }
      assert s[..size] == s;
    }

    method EpochCheck()
      requires Valid()
      modifies this, flags.mem, epochFlags
      ensures Shaped() && Epoch(View(), counter) == old(EpochStep(View(), counter, epochSize))
      ensures InPlace(h, View()) && Bounded(View(), counter + 1, epochSize)
    {
      hide Count, InPlace, Bounded;
      ghost var s := View();
      EpochStepLeavesRoom(s, counter, epochSize);
      AgedInPlace(h, s);
      if counter != 0 {
        counter := counter - 1;
        return;
      }
      var unused := CountRecent();
      if unused >= epochSize {
        AgeAll();
        counter := epochSize;
      } else {
        counter := Max(1, Max(epochSize / 16, epochSize - unused));
      }
    }

    method AgeAll()
      requires Shaped()
      modifies flags.mem, epochFlags
      ensures View() == Aged(old(View()))
    {
      ghost var s := View();
      var i := 0;
      while i < size
        invariant 0 <= i <= size
        invariant forall j | 0 <= j < size :: View()[j] == if j < i then Aged(s)[j] else s[j]
      {
        if epochFlags[i] {
          epochFlags[i] := false;
        } else {
          AllowErase(i);
        }
        i := i + 1;
      }
    }

    /** Puts an element into a slot that is then kept. */
    method Place(loc: nat, e: T, recent: bool)
      requires Shaped() && loc < size
      modifies table, flags.mem, epochFlags
      ensures View() == old(View())[loc := Cell(e, false, recent)]
    {
      table[loc] := e;
      assert View() == old(View())[loc := old(View()[loc]).(item := e)];
      PleaseKeep(loc);
      assert View() == old(View())[loc := Cell(e, false, old(View()[loc]).recent)];
      ghost var s := View();
      epochFlags[loc] := recent;
      assert forall i | 0 <= i < size && i != loc :: View()[i] == s[i];
      assert View()[loc] == s[loc].(recent := recent);
      assert View() == s[loc := Cell(e, false, recent)];
    }

    /** Exchanges an element and its epoch with those of a slot. */
    method Exchange(loc: nat, e: T, recent: bool) returns (e': T, recent': bool)
      requires Shaped() && loc < size
      modifies table, epochFlags
      ensures View() == old(View())[loc := Cell(e, old(View()[loc]).garbage, recent)]
      ensures e' == old(View()[loc]).item && recent' == old(View()[loc]).recent
    {
      e', recent' := table[loc], epochFlags[loc];
      table[loc] := e;
      epochFlags[loc] := recent;
    }

    method Insert(e: T) returns (ghost ending: Ending<T>)
      requires Valid()
      modifies this, table, flags.mem, epochFlags
      ensures Valid() && ending == Inserted(h, old(EpochStep(View(), counter, epochSize).table), e, depthLimit)
      ensures View() == ending.table && counter == old(EpochStep(View(), counter, epochSize).counter)
      ensures Count(View(), IsRecent()) <= EpochBound(epochSize) && Count(View(), IsLive()) <= 2 * EpochBound(epochSize)
    {
      hide InPlace, Bounded, Displaced, Count, EpochStep, Loc;
      EpochCheck();
      ghost var s := View();
      ending := Inserted(h, s, e, depthLimit);
      InsertKeeps(h, s, e, depthLimit, counter, epochSize);
      var k := FindItem(e);
      if k < LOCATIONS {
        Place(Loc(h, size, e, k), e, true);
      } else {
        Displace(e);
      }
    }

    /** Which of its locations holds the element, or 8. */
    method FindItem(e: T) returns (k: nat)
      requires Shaped()
      ensures k == FirstMatch(h, View(), e, 0)
    {
      hide Loc;
      k := 0;
      while k < LOCATIONS
        invariant k <= LOCATIONS && FirstMatch(h, View(), e, k) == FirstMatch(h, View(), e, 0)
      {
        if table[Loc(h, size, e, k)] == e {
          return;
        }
        k := k + 1;
      }
    }

    method FindFree(e: T) returns (k: nat)
      requires Shaped()
      ensures k == FirstFree(h, View(), e, 0)
    {
      hide Loc;
      k := 0;
      while k < LOCATIONS
        invariant k <= LOCATIONS && FirstFree(h, View(), e, k) == FirstFree(h, View(), e, 0)
      {
        if flags.IsSet(Loc(h, size, e, k)) {
          return;
        }
        k := k + 1;
      }
    }

    /** The displacement loop of insert. */
    method Displace(element: T)
      requires Shaped()
      modifies table, flags.mem, epochFlags
      ensures View() == old(Displaced(h, View(), element, TWO32 - 1, true, depthLimit)).table
    {
      hide Loc, FirstFree, NextLoc;
      ghost var goal := Displaced(h, View(), element, TWO32 - 1, true, depthLimit);
      var e, lastLoc, lastEpoch := element, TWO32 - 1, true;
      var depth := 0;
      while depth < depthLimit
        invariant 0 <= depth <= depthLimit
        invariant Displaced(h, View(), e, lastLoc, lastEpoch, depthLimit - depth) == goal
      {
        var k := FindFree(e);
        if k < LOCATIONS {
          Place(Loc(h, size, e, k), e, lastEpoch);
          return;
        }
        lastLoc := NextLocIn(h, size, e, lastLoc);
        e, lastEpoch := Exchange(lastLoc, e, lastEpoch);
        depth := depth + 1;
      }
    }

    method Contains(e: T, erase: bool) returns (found: bool)
      requires Valid()
      modifies flags.mem
      ensures Valid() && found == Present(h, View(), e) == old(Present(h, View(), e))
      ensures found ==> View() == if erase then old(Erased(h, View(), e)) else old(View())
      ensures !found ==> View() == old(View())
    {
      hide Loc, InPlace, Bounded;
      ghost var s := View();
      var k := FindItem(e);
      if k < LOCATIONS {
        if erase {
          ErasedOk(h, s, e, counter, epochSize);
          AllowErase(Loc(h, size, e, k));
        }
        return true;
      }
      return false;
    }
  }

  lemma InsertKeeps<T>(h: Hasher<T>, s: Table<T>, e: T, depthLimit: nat, counter: nat, epochSize: nat)
    requires |s| > 0 && InPlace(h, s) && Bounded(s, counter + 1, epochSize)
    ensures var t := Inserted(h, s, e, depthLimit).table;
            && |t| == |s| && InPlace(h, t) && Bounded(t, counter, epochSize)
            && Count(t, IsRecent()) <= EpochBound(epochSize) && Count(t, IsLive()) <= 2 * EpochBound(epochSize)
  {
    hide Inserted, Count, InPlace, Bounded;
    InsertInPlace(h, s, e, depthLimit);
    InsertBounded(h, s, e, depthLimit, counter, epochSize);
    BoundedLive(Inserted(h, s, e, depthLimit).table, counter, epochSize);
  }

  function NextLocIn<T>(h: Hasher<T>, size: nat, e: T, lastLoc: int): (loc: nat)
    requires size > 0
    ensures loc == NextLoc(h, size, e, lastLoc) < size
  {
    NextLoc(h, size, e, lastLoc)
  }

  /** The element's slot may be collected from now on. */
  function Erased<T(==)>(h: Hasher<T>, s: Table<T>, e: T): Table<T>
    requires |s| > 0 && Present(h, s, e)
  {
    var loc := Loc(h, |s|, e, FirstMatch(h, s, e, 0));
    s[loc := s[loc].(garbage := true)]
  }

  /** Exactly one slot with the element, where a lookup finds it, may be collected then; what the table holds is
      the same. */
  lemma ErasedIs<T>(h: Hasher<T>, s: Table<T>, e: T, x: T)
    requires |s| > 0 && Present(h, s, e)
    ensures var t := Erased(h, s, e);
            && |t| == |s| && Count(t, Holds(x)) == Count(s, Holds(x))
            && exists i: nat | i < |s| ::
                 && IsLoc(h, |s|, e, i) && s[i].item == e && t[i] == s[i].(garbage := true)
                 && forall j: nat | j < |s| && j != i :: t[j] == s[j]
  {
    hide Loc, Count;
    var loc := Loc(h, |s|, e, FirstMatch(h, s, e, 0));
    CountUpdate(s, loc, s[loc].(garbage := true), Holds(x));
    assert IsLoc(h, |s|, e, loc);
  }

  lemma ErasedOk<T>(h: Hasher<T>, s: Table<T>, e: T, counter: nat, epochSize: nat)
    requires |s| > 0 && Present(h, s, e) && InPlace(h, s) && Bounded(s, counter, epochSize)
    ensures InPlace(h, Erased(h, s, e)) && Bounded(Erased(h, s, e), counter, epochSize)
    ensures Present(h, Erased(h, s, e), e)
  {
    hide Loc, Count;
    var loc := Loc(h, |s|, e, FirstMatch(h, s, e, 0));
    CountUpdate(s, loc, s[loc].(garbage := true), IsRecent());
    CountUpdate(s, loc, s[loc].(garbage := true), IsOld());
  }
}
