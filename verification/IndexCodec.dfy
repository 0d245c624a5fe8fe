/** The index lists in requests for missing transactions (blockencodings.h), after BIP 152. */
module IndexCodec {
  import opened Options
  import opened BlockSlots

  predicate Increasing(s: seq<nat>) {
    forall i, j | 0 <= i < j < |s| :: s[i] < s[j]
  }

  predicate Fit16(s: seq<nat>) {
    forall i | 0 <= i < |s| :: s[i] < TWO16
  }

  /** Each index as its distance from the one after its predecessor, in 64 bits. */
  function Differences(s: seq<nat>): (r: seq<nat>)
    ensures |r| == |s|
  {
    seq(|s|, i requires 0 <= i < |s| => DifferenceAt(s, i))
  }

  function DifferenceAt(s: seq<nat>, i: nat): (r: nat)
    requires i < |s|
  {
    (s[i] - if i == 0 then 0 else s[i - 1] + 1) % TWO64
  }

  method WriteIndexes(indexes: seq<nat>) returns (stream: seq<nat>)
    requires Fit16(indexes)
    ensures stream == Differences(indexes)
  {
    stream := [];
    var i := 0;
    while i < |indexes|
      invariant 0 <= i <= |indexes| && stream == Differences(indexes)[..i]
    {
      stream := stream + [DifferenceAt(indexes, i)];
      i := i + 1;
    }
  }

  /** Reads `size` differences, in steps of a thousand, and adds them up in place; anything over 16 bits
      or a stream that ends early is an error. */
  method ReadIndexes(stream: seq<nat>, size: nat) returns (r: Option<seq<nat>>)
    ensures r.Some? <==> size <= |stream| && SumsFit(stream[..size])
    ensures r.Some? ==> r.value == Sums(stream[..size])
  {
    hide Sums, SumsFit;
    var d := ReadDifferences(stream, size);
    if d.None? {
      if size <= |stream| {
        TooLarge(stream[..size]);
      }
      return None;
    }
    r := AddUp(d.value);
  }

  /** The differences as they are read. */
  method ReadDifferences(stream: seq<nat>, size: nat) returns (r: Option<seq<nat>>)
    ensures r.Some? <==> size <= |stream| && Fit16(stream[..size])
    ensures r.Some? ==> r.value == stream[..size]
  {
    var indexes: seq<nat> := [];
    var i := 0;
    while |indexes| < size
      invariant i == |indexes| <= size && i <= |stream| && indexes == stream[..i] && Fit16(indexes)
    {
      var limit := if 1000 + |indexes| < size then 1000 + |indexes| else size;
      while i < limit
        invariant i == |indexes| <= limit <= size && i <= |stream| && indexes == stream[..i] && Fit16(indexes)
      {
        if i == |stream| || stream[i] >= TWO16 {
          return None;
        }
        indexes := indexes + [stream[i]];
        i := i + 1;
      }
    }
    return Some(indexes);
  }

  /** Adds the differences up in place. */
  method AddUp(differences: seq<nat>) returns (r: Option<seq<nat>>)
    requires Fit16(differences)
    ensures r.Some? <==> SumsFit(differences)
    ensures r.Some? ==> r.value == Sums(differences)
  {
    hide Sums, SumsFit, Offset, Wrap16, Fit16;
    var indexes := differences;
    var offset: nat := 0;
    var j := 0;
    SumsStart(differences);
    while j < |indexes|
      invariant 0 <= j <= |indexes| == |differences| && SumsFit(differences[..j]) && offset == Offset(differences[..j])
      invariant indexes == Sums(differences[..j]) + differences[j..]
    {
      AddUpStep(differences, j, indexes, offset);
      if indexes[j] + offset >= TWO16 {
        return None;
      }
      indexes := indexes[j := indexes[j] + offset];
      offset := Wrap16(indexes[j] + 1);
      j := j + 1;
    }
    assert differences[..j] == differences && differences[j..] == [];
    return Some(indexes);
  }

  /** The running sums; the offset after 65535 starts again at zero. */
  function Sums(d: seq<nat>): (r: seq<nat>)
    ensures |r| == |d|
    decreases |d|, 0
  {
    if d == [] then []
    else
      var front := Sums(d[..|d| - 1]);
      front + [d[|d| - 1] + Offset(d[..|d| - 1])]
  }

  function Offset(d: seq<nat>): nat
    decreases |d|, 1
  {
    if d == [] then 0 else Wrap16(Sums(d)[|d| - 1] + 1)
  }

  predicate SumsFit(d: seq<nat>) {
    Fit16(d) && Fit16(Sums(d))
  }

  lemma SumsStart(d: seq<nat>)
    ensures Sums(d[..0]) == [] && Offset(d[..0]) == 0 && SumsFit(d[..0])
    ensures d == Sums(d[..0]) + d[0..]
  {
    assert d[..0] == [];
  }

  lemma SumsNext(d: seq<nat>, j: nat)
    requires j < |d|
    ensures Sums(d[..j + 1]) == Sums(d[..j]) + [d[j] + Offset(d[..j])]
    ensures Offset(d[..j + 1]) == Wrap16(d[j] + Offset(d[..j]) + 1)
    ensures SumsFit(d[..j]) && d[j] < TWO16 ==> (SumsFit(d[..j + 1]) <==> d[j] + Offset(d[..j]) < TWO16)
  {
    assert d[..j + 1][..j] == d[..j];
    var s := Sums(d[..j + 1]);
    assert s[..j] == Sums(d[..j]);
  }

  lemma {:induction false} SumsPrefix(d: seq<nat>, j: nat)
    requires j <= |d|
    ensures Sums(d[..j]) == Sums(d)[..j]
  {
    if j == |d| {
      assert d[..j] == d;
    } else {
      SumsPrefix(d[..|d| - 1], j);
      assert d[..|d| - 1][..j] == d[..j];
    }
  }

  lemma SumsFitPrefix(d: seq<nat>, j: nat)
    requires j <= |d|
    ensures SumsFit(d) ==> SumsFit(d[..j])
  {
    SumsPrefix(d, j);
  }

  /** One turn of the loop that adds up in place. */
  lemma AddUpStep(d: seq<nat>, j: nat, indexes: seq<nat>, offset: nat)
    requires j < |d| && Fit16(d) && SumsFit(d[..j]) && offset == Offset(d[..j]) && indexes == Sums(d[..j]) + d[j..]
    ensures SumsFit(d) ==> SumsFit(d[..j + 1])
    ensures SumsFit(d[..j + 1]) <==> indexes[j] + offset < TWO16
    ensures indexes[j := indexes[j] + offset] == Sums(d[..j + 1]) + d[j + 1..]
    ensures Offset(d[..j + 1]) == Wrap16(indexes[j] + offset + 1)
  {
    hide Sums, SumsFit, Offset, Wrap16;
    SumsNext(d, j);
    SumsFitPrefix(d, j + 1);
    assert d[j..] == [d[j]] + d[j + 1..];
  }

  lemma TooLarge(d: seq<nat>)
    requires !Fit16(d)
    ensures !SumsFit(d)
  {
  }

  /** Every strictly increasing list of 16-bit indexes comes back. */
  lemma {:induction false} IndexesBack(s: seq<nat>)
    requires Increasing(s) && Fit16(s)
    ensures SumsFit(Differences(s)) && Sums(Differences(s)) == s
  {
    hide Sums, SumsFit, Offset, DifferenceAt, Wrap16;
    if s == [] {
      SumsStart(Differences(s));
    } else {
      var n := |s| - 1;
      var d := Differences(s);
      IndexesBack(s[..n]);
      FrontDifferences(s);
      SumsNext(d, n);
      assert d[..n + 1] == d;
      assert s == s[..n] + [s[n]];
      LastDifference(s);
      if n > 0 {
        OffsetIs(d[..n]);
      } else {
        SumsStart(d);
      }
    }
  }

  lemma FrontDifferences(s: seq<nat>)
    requires s != []
    ensures Differences(s)[..|s| - 1] == Differences(s[..|s| - 1])
  {
  }

  lemma LastDifference(s: seq<nat>)
    requires s != [] && Increasing(s) && Fit16(s)
    ensures var n := |s| - 1; DifferenceAt(s, n) == if n == 0 then s[0] else s[n] - s[n - 1] - 1
  {
  }

  lemma OffsetIs(d: seq<nat>)
    requires d != []
    ensures Offset(d) == Wrap16(Sums(d)[|d| - 1] + 1)
  {
    hide Sums, Wrap16;
  }

  /** And no other list does: a step back does not fit 16 bits. */
  lemma StepBackRefused(s: seq<nat>)
    requires Fit16(s) && !Increasing(s)
    ensures !SumsFit(Differences(s))
  {
    hide Sums;
    if forall i | 0 < i < |s| :: s[i - 1] < s[i] {
      StepsUp(s);
      assert false;
    }
    var i :| 0 < i < |s| && s[i - 1] >= s[i];
    assert Differences(s)[i] == DifferenceAt(s, i);
    BackIsLarge(s[i], s[i - 1]);
  }

  lemma BackIsLarge(x: nat, y: nat)
    requires x <= y < TWO16
    ensures (x - (y + 1)) % TWO64 >= TWO16
  {
    assert (x - (y + 1)) % TWO64 == x - (y + 1) + TWO64;
  }

  lemma {:induction false} StepsUp(s: seq<nat>)
    requires forall i | 0 < i < |s| :: s[i - 1] < s[i]
    ensures Increasing(s)
  {
    if |s| > 1 {
      var n := |s| - 1;
      var front := s[..n];
      assert forall i | 0 < i < n :: front[i - 1] < front[i];
      StepsUp(front);
      forall i, j | 0 <= i < j < |s|
        ensures s[i] < s[j]
      {
        assert i < n - 1 ==> front[i] < front[n - 1];
        assert j < n ==> front[i] < front[j];
      }
    }
  }

  /** A list of indexes is written, sent and read: it comes back exactly if it is strictly increasing, and
      is refused otherwise. */
  method SendIndexes(indexes: seq<nat>) returns (r: Option<seq<nat>>)
    requires Fit16(indexes)
    ensures r == if Increasing(indexes) then Some(indexes) else None
  {
    hide Sums, SumsFit, Increasing, Fit16, Differences;
    var stream := WriteIndexes(indexes);
    assert stream[..|indexes|] == stream;
    if Increasing(indexes) {
      IndexesBack(indexes);
    } else {
      StepBackRefused(indexes);
    }
    r := ReadIndexes(stream, |indexes|);
  }
}
