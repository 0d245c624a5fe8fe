/** The boolean expression evaluator behind qualifier verifiers (LibBoolEE.cpp). */
module BoolExpr {
  import opened Options

  datatype Error = UnknownOperator | ParenthesisParity | EmptyExpression | InvalidName | VariableNotFound

  datatype Parse = Parsed(subs: seq<string>) | ParseError(error: Error)

  datatype Result = Value(b: bool) | Failure(error: Error)

  type Valuation = map<string, bool>

  // --- Characters ---------------------------------------------------------------------------

  predicate BelongsToName(c: char) {
    'a' <= c <= 'z' || 'A' <= c <= 'Z' || '0' <= c <= '9' || c == '_' || c == '#' || c == '.'
  }

  predicate IsSpace(c: char) {
    c == ' ' || c == '\t' || c == '\n' || c == '\U{0B}' || c == '\U{0C}' || c == '\r'
  }

  function WithoutSpaces(s: string): (r: string)
    ensures |r| <= |s| && forall i | 0 <= i < |r| :: !IsSpace(r[i])
  {
    if s == [] then []
    else WithoutSpaces(s[..|s| - 1]) + if IsSpace(s[|s| - 1]) then [] else [s[|s| - 1]]
  }

  lemma {:induction false} NoSpaces(s: string)
    requires forall i | 0 <= i < |s| :: !IsSpace(s[i])
    ensures WithoutSpaces(s) == s
  {
    if s != [] {
      NoSpaces(s[..|s| - 1]);
    }
  }

  method RemoveWhitespaces(s: string) returns (r: string)
    ensures r == WithoutSpaces(s)
  {
    r := [];
    var i := 0;
    while i < |s|
      invariant 0 <= i <= |s| && r == WithoutSpaces(s[..i])
    {
      assert s[..i + 1][..i] == s[..i];
      if !IsSpace(s[i]) {
        r := r + [s[i]];
      }
      i := i + 1;
    }
    assert s[..i] == s;
  }

  // --- Splitting at the top level -----------------------------------------------------------

  /** The state of the scan: the subexpression under way, open parentheses, finished subexpressions. */
  datatype Scan = Scan(current: Option<string>, parity: int, subs: seq<string>) | Bad

  function Append(current: Option<string>, c: char): Option<string> {
    if current.None? then None else Some(current.value + [c])
  }

  function Step(st: Scan, c: char, op: char): Scan {
    if st.Bad? then Bad
    else if c == ')' then Scan(Append(st.current, c), st.parity - 1, st.subs)
    else if c == '(' then Scan(if st.current.None? then Some([c]) else Append(st.current, c), st.parity + 1, st.subs)
    else if st.parity != 0 then Scan(Append(st.current, c), st.parity, st.subs)
    else if BelongsToName(c) || c == '!' then
      Scan(if st.current.None? then Some([c]) else Append(st.current, c), 0, st.subs)
    else if st.current.None? then st
    else if c == op then Scan(Some([]), 0, st.subs + [st.current.value])
    else if c != '&' && c != '|' then Bad
    else Scan(Append(st.current, c), 0, st.subs)
  }

  function Fold(st: Scan, s: string, op: char): Scan {
    if s == [] then st else Step(Fold(st, s[..|s| - 1], op), s[|s| - 1], op)
  }

  const START := Scan(None, 0, [])

  function Finished(st: Scan): Parse {
    if st.Bad? then ParseError(UnknownOperator)
    else if st.parity != 0 then ParseError(ParenthesisParity)
    else Parsed(if st.current.Some? then st.subs + [st.current.value] else st.subs)
  }

  function Split(s: string, op: char): Parse {
    Finished(Fold(START, s, op))
  }

  /** The scanning loop, with the start of the current subexpression kept as a position. */
  method SingleParse(formula: string, op: char) returns (r: Parse)
    ensures r == Split(formula, op)
  {
    var startPos, parityCount := -1, 0;
    var subs: seq<string> := [];
    var i := 0;
    while i < |formula|
      invariant 0 <= i <= |formula| && -1 <= startPos <= i
      invariant Fold(START, formula[..i], op) ==
                Scan(if startPos == -1 then None else Some(formula[startPos..i]), parityCount, subs)
    {
      var c := formula[i];
      assert formula[..i + 1][..i] == formula[..i];
      assert startPos != -1 ==> formula[startPos..i + 1] == formula[startPos..i] + [c];
      assert formula[i..i + 1] == [c] && formula[i + 1..i + 1] == [];
      if c == ')' {
        parityCount := parityCount - 1;
      } else if c == '(' {
        parityCount := parityCount + 1;
        if startPos == -1 {
          startPos := i;
        }
      } else if parityCount == 0 {
        if startPos == -1 {
          if BelongsToName(c) || c == '!' {
            startPos := i;
          }
        } else if !(BelongsToName(c) || c == '!') {
          if op == c {
            subs := subs + [formula[startPos..i]];
            startPos := i + 1;
          } else if c != '&' && c != '|' {
            FoldBad(START, formula, op, i + 1);
            return ParseError(UnknownOperator);
          }
        }
      }
      i := i + 1;
    }
    assert formula[..i] == formula;
    if startPos != -1 {
      subs := subs + [formula[startPos..]];
    }
    if parityCount != 0 {
      return ParseError(ParenthesisParity);
    }
    return Parsed(subs);
  }

  lemma {:induction false} FoldBad(st: Scan, s: string, op: char, n: nat)
    requires n <= |s| && Fold(st, s[..n], op) == Bad
    ensures Fold(st, s, op) == Bad
    decreases |s|
  {
    if n == |s| {
      assert s[..n] == s;
    } else {
      assert s[..|s| - 1][..n] == s[..n];
      FoldBad(st, s[..|s| - 1], op, n);
    }
  }

  // --- Subexpressions are shorter -----------------------------------------------------------

  function Length(subs: seq<string>): nat {
    if subs == [] then 0 else Length(subs[..|subs| - 1]) + |subs[|subs| - 1]| + 1
  }

  function Used(st: Scan): nat {
    if st.Bad? then 0 else Length(st.subs) + if st.current.None? then 0 else |st.current.value|
  }

  lemma {:induction false} FoldUses(s: string, op: char)
    ensures Used(Fold(START, s, op)) <= |s|
  {
    if s != [] {
      var st := Fold(START, s[..|s| - 1], op);
      FoldUses(s[..|s| - 1], op);
      if st.Scan? && st.current.Some? {
        var more := st.subs + [st.current.value];
        assert more[..|st.subs|] == st.subs;
      }
    }
  }

  lemma {:induction false} EachShorter(subs: seq<string>, k: nat)
    requires k < |subs|
    ensures |subs[k]| < Length(subs)
    ensures |subs| >= 2 ==> |subs[k]| + 1 < Length(subs)
  {
    var n := |subs| - 1;
    if k < n {
      EachShorter(subs[..n], k);
    } else if n > 0 {
      EachShorter(subs[..n], 0);
    }
  }

  /** On every string, each of two or more subexpressions is strictly shorter. */
  lemma SplitShorter(s: string, op: char)
    ensures var r := Split(s, op); r.Parsed? && |r.subs| >= 2 ==> forall k | 0 <= k < |r.subs| :: |r.subs[k]| < |s|
  {
    var st := Fold(START, s, op);
    var r := Split(s, op);
    FoldUses(s, op);
    if r.Parsed? && |r.subs| >= 2 {
      assert st.current.Some? ==> r.subs[..|st.subs|] == st.subs;
      forall k | 0 <= k < |r.subs|
        ensures |r.subs[k]| < |s|
      {
        EachShorter(r.subs, k);
      }
    }
  }

  // --- Evaluation ---------------------------------------------------------------------------

  /** The recursion ends on every string: each call is on a strictly shorter one. */
  function Resolved(source: string, v: Valuation): Result
    decreases |source|, 1, 0
  {
    var s := WithoutSpaces(source);
    if s == [] then Failure(EmptyExpression)
    else
      var ors := Split(s, '|');
      SplitShorter(s, '|');
      if ors.ParseError? then Failure(ors.error)
      else if |ors.subs| >= 2 then ResolvedAny(source, ors.subs, v)
      else
        var ands := if |ors.subs| == 1 then Split(s, '&') else ors;
        SplitShorter(s, '&');
        if ands.ParseError? then Failure(ands.error)
        else if |ands.subs| == 0 then Failure(InvalidName)
        else if |ands.subs| >= 2 then ResolvedAll(source, ands.subs, v)
        else ResolvedOne(source, s, v)
  }

  function ResolvedOne(source: string, s: string, v: Valuation): Result
    requires 0 < |s| <= |source|
    decreases |source|, 0, 0
  {
    if s[0] == '!' then
      var r := Resolved(s[1..], v);
      if r.Value? then Value(!r.b) else r
    else if s[0] == '(' then Resolved(if |s| >= 2 then s[1..|s| - 1] else [], v)
    else if s == "1" then Value(true)
    else if s == "0" then Value(false)
    else if s !in v then Failure(VariableNotFound)
    else Value(v[s])
  }

  /** All subexpressions are evaluated, from the left; the first error is the outcome. */
  function ResolvedAny(source: string, subs: seq<string>, v: Valuation): Result
    requires forall k | 0 <= k < |subs| :: |subs[k]| < |source|
    decreases |source|, 0, |subs|
  {
    if subs == [] then Value(false)
    else
      var front := ResolvedAny(source, subs[..|subs| - 1], v);
      if front.Failure? then front
      else
        var last := Resolved(subs[|subs| - 1], v);
        if last.Failure? then last else Value(front.b || last.b)
  }

  function ResolvedAll(source: string, subs: seq<string>, v: Valuation): Result
    requires forall k | 0 <= k < |subs| :: |subs[k]| < |source|
    decreases |source|, 0, |subs|
  {
    if subs == [] then Value(true)
    else
      var front := ResolvedAll(source, subs[..|subs| - 1], v);
      if front.Failure? then front
      else
        var last := Resolved(subs[|subs| - 1], v);
        if last.Failure? then last else Value(front.b && last.b)
  }

  /** The evaluator as it runs: split, recurse, combine. */
  method Resolve(source: string, v: Valuation) returns (r: Result)
    ensures r == Resolved(source, v)
    decreases |source|
  {
    hide Split, WithoutSpaces;
    var s := RemoveWhitespaces(source);
    if s == [] {
      return Failure(EmptyExpression);
    }
    var parse := SingleParse(s, '|');
    SplitShorter(s, '|');
    SplitShorter(s, '&');
    var currentOp := '|';
    if parse.ParseError? {
      return Failure(parse.error);
    }
    if |parse.subs| == 1 {
      currentOp := '&';
      parse := SingleParse(s, '&');
      if parse.ParseError? {
        return Failure(parse.error);
      }
    }
    if |parse.subs| == 0 {
      return Failure(InvalidName);
    }
    if |parse.subs| == 1 {
      r := ResolveSingle(source, s, v);
      return;
    }
    var subs, result, i := parse.subs, currentOp == '&', 0;
    while i < |subs|
      invariant 0 <= i <= |subs|
      invariant Value(result) == if currentOp == '|' then ResolvedAny(source, subs[..i], v)
          else ResolvedAll(source, subs[..i], v)
    {
      CombineNext(source, subs, i, v);
      var sub := Resolve(subs[i], v);
      if sub.Failure? {
        CombineStops(source, subs, i, currentOp, v);
        return sub;
      }
      result := if currentOp == '|' then result || sub.b else result && sub.b;
      i := i + 1;
    }
    assert subs[..i] == subs;
    return Value(result);
  }

  /** A formula without binary operator at the top level. */
  method ResolveSingle(source: string, s: string, v: Valuation) returns (r: Result)
    requires 0 < |s| <= |source|
    ensures r == ResolvedOne(source, s, v)
    decreases |source|, 0
  {
    hide Resolved;
    if s[0] == '!' {
      var inner := Resolve(s[1..], v);
      return if inner.Value? then Value(!inner.b) else inner;
    } else if s[0] == '(' {
      r := Resolve(if |s| >= 2 then s[1..|s| - 1] else [], v);
    } else if s == "1" {
      return Value(true);
    } else if s == "0" {
      return Value(false);
    } else if s !in v {
      return Failure(VariableNotFound);
    } else {
      return Value(v[s]);
    }
  }

  lemma CombineNext(source: string, subs: seq<string>, i: nat, v: Valuation)
    requires i < |subs| && forall k | 0 <= k < |subs| :: |subs[k]| < |source|
    ensures var any, all, last :=
            ResolvedAny(source, subs[..i], v), ResolvedAll(source, subs[..i], v), Resolved(subs[i], v);
            && ResolvedAny(source, subs[..i + 1], v) ==
                (if any.Failure? then any else if last.Failure? then last else Value(any.b || last.b))
            && ResolvedAll(source, subs[..i + 1], v) ==
                (if all.Failure? then all else if last.Failure? then last else Value(all.b && last.b))
  {
    hide Resolved;
    assert subs[..i + 1][..i] == subs[..i];
  }

  lemma {:induction false} CombineStops(source: string, subs: seq<string>, i: nat, op: char, v: Valuation)
    requires i < |subs| && forall k | 0 <= k < |subs| :: |subs[k]| < |source|
    requires Resolved(subs[i], v).Failure?
    requires if op == '|' then ResolvedAny(source, subs[..i], v).Value? else ResolvedAll(source, subs[..i], v).Value?
    ensures (if op == '|' then ResolvedAny(source, subs, v) else ResolvedAll(source, subs, v)) == Resolved(subs[i], v)
    decreases |subs|
  {
    hide Resolved;
    var n := |subs| - 1;
    if i < n {
      assert subs[..n][..i] == subs[..i];
      CombineStops(source, subs[..n], i, op, v);
    }
  }

  // --- Formulas and how they are printed ----------------------------------------------------

  datatype Formula =
    | Const(b: bool)
    | Name(name: string)
    | Not(f: Formula)
    | And(l: Formula, r: Formula)
    | Or(l: Formula, r: Formula)
    | Paren(f: Formula)

  /** Every name is a nonempty word of name characters other than the two constants, with a value. */
  predicate Named(f: Formula, v: Valuation) {
    match f
    case Const(_) => true
    case Name(n) => |n| > 0 && (forall i | 0 <= i < |n| :: BelongsToName(n[i])) && n != "0" && n != "1" && n in v
    case Not(g) => Named(g, v)
    case And(l, r) => Named(l, v) && Named(r, v)
    case Or(l, r) => Named(l, v) && Named(r, v)
    case Paren(g) => Named(g, v)
  }

  function Truth(f: Formula, v: Valuation): bool
    requires Named(f, v)
  {
    match f
    case Const(b) => b
    case Name(n) => v[n]
    case Not(g) => !Truth(g, v)
    case And(l, r) => Truth(l, v) && Truth(r, v)
    case Or(l, r) => Truth(l, v) || Truth(r, v)
    case Paren(g) => Truth(g, v)
  }

  /** Printed with & binding tighter than |, and ! tighter than both: in the operand of & (level 1) a
      disjunction is in parentheses, in the operand of ! (level 2) a conjunction too. */
  function Printed(f: Formula, level: nat): string
    decreases f, if (f.Or? && level > 0) || (f.And? && level > 1) then 1 else 0
  {
    match f
    case Const(b) => if b then "1" else "0"
    case Name(n) => n
    case Not(g) => "!" + Printed(g, 2)
    case And(l, r) => if level > 1 then "(" + Printed(f, 0) + ")" else Printed(l, 1) + "&" + Printed(r, 1)
    case Or(l, r) => if level > 0 then "(" + Printed(f, 0) + ")" else Printed(l, 0) + "|" + Printed(r, 0)
    case Paren(g) => "(" + Printed(g, 0) + ")"
  }

  // --- Scanning printed formulas ------------------------------------------------------------

  lemma {:induction false} FoldConcat(st: Scan, a: string, b: string, op: char)
    ensures Fold(st, a + b, op) == Fold(Fold(st, a, op), b, op)
  {
    if b == [] {
      assert a + b == a;
    } else {
      var n := |b| - 1;
      FoldConcat(st, a, b[..n], op);
      assert (a + b)[..|a| + n] == a + b[..n];
    }
  }

  lemma FoldOne(st: Scan, c: char, op: char)
    ensures Fold(st, [c], op) == Step(st, c, op)
  {
    assert [c][..0] == [];
    assert Fold(st, [], op) == st;
  }

  /** Scanning `w` with `k` open parentheses only makes the current subexpression longer. */
  ghost predicate Keeps(w: string, op: char, k: nat) {
    forall x: string, subs: seq<string> :: Fold(Scan(Some(x), k, subs), w, op) == Scan(Some(x + w), k, subs)
  }

  lemma KeepsConcat(a: string, b: string, op: char, k: nat)
    requires Keeps(a, op, k) && Keeps(b, op, k)
    ensures Keeps(a + b, op, k)
  {
    hide Fold;
    forall x: string, subs: seq<string>
      ensures Fold(Scan(Some(x), k, subs), a + b, op) == Scan(Some(x + (a + b)), k, subs)
    {
      FoldConcat(Scan(Some(x), k, subs), a, b, op);
      assert x + a + b == x + (a + b);
    }
  }

  lemma KeepsChar(c: char, op: char, k: nat)
    requires c != '(' && c != ')' && (k > 0 || BelongsToName(c) || c == '!' || ((c == '&' || c == '|') && c != op))
    ensures Keeps([c], op, k)
  {
    hide Fold;
    forall x: string, subs: seq<string>
      ensures Fold(Scan(Some(x), k, subs), [c], op) == Scan(Some(x + [c]), k, subs)
    {
      FoldOne(Scan(Some(x), k, subs), c, op);
    }
  }

  lemma KeepsParen(w: string, op: char, k: nat)
    requires Keeps(w, op, k + 1)
    ensures Keeps("(" + w + ")", op, k)
  {
    hide Fold;
    forall x: string, subs: seq<string>
      ensures Fold(Scan(Some(x), k, subs), "(" + w + ")", op) == Scan(Some(x + ("(" + w + ")")), k, subs)
    {
      var st := Scan(Some(x), k, subs);
      FoldConcat(st, "(" + w, ")", op);
      FoldConcat(st, "(", w, op);
      FoldOne(st, '(', op);
      FoldOne(Scan(Some(x + "(" + w), k + 1, subs), ')', op);
      assert x + "(" + w + ")" == x + ("(" + w + ")");
    }
  }

  lemma {:induction false} KeepsName(w: string, op: char, k: nat)
    requires |w| > 0 && forall i | 0 <= i < |w| :: BelongsToName(w[i])
    ensures Keeps(w, op, k)
  {
    hide Keeps;
    var n := |w| - 1;
    KeepsChar(w[n], op, k);
    if n == 0 {
      assert w == [w[n]];
    } else {
      KeepsName(w[..n], op, k);
      KeepsConcat(w[..n], [w[n]], op, k);
      assert w == w[..n] + [w[n]];
    }
  }

  /** No operator `op` at the top level of the printed formula. */
  predicate Whole(f: Formula, level: nat, op: char) {
    !(f.Or? && level == 0) && !(op == '&' && f.And? && level <= 1)
  }

  /** Inside parentheses a formula is passed over; at the top level too, where `op` does not occur. */
  lemma {:induction false} PrintedKeeps(f: Formula, level: nat, op: char, k: nat, v: Valuation)
    requires Named(f, v) && (op == '&' || op == '|') && (k > 0 || Whole(f, level, op))
    ensures Keeps(Printed(f, level), op, k)
    decreases f, if (f.Or? && level > 0) || (f.And? && level > 1) then 1 else 0
  {
    hide Keeps;
    match f
    case Const(b) => KeepsChar('0', op, k); KeepsChar('1', op, k);
    case Name(n) => KeepsName(n, op, k);
    case Not(g) =>
      KeepsChar('!', op, k);
      PrintedKeeps(g, 2, op, k, v);
      KeepsConcat("!", Printed(g, 2), op, k);
    case And(l, r) =>
      if level > 1 {
        PrintedKeeps(f, 0, op, k + 1, v);
        KeepsParen(Printed(f, 0), op, k);
      } else {
        PrintedKeeps(l, 1, op, k, v);
        PrintedKeeps(r, 1, op, k, v);
        KeepsBinary(Printed(l, 1), '&', Printed(r, 1), op, k);
      }
    case Or(l, r) =>
      if level > 0 {
        PrintedKeeps(f, 0, op, k + 1, v);
        KeepsParen(Printed(f, 0), op, k);
      } else {
        PrintedKeeps(l, 0, op, k, v);
        PrintedKeeps(r, 0, op, k, v);
        KeepsBinary(Printed(l, 0), '|', Printed(r, 0), op, k);
      }
    case Paren(g) =>
      PrintedKeeps(g, 0, op, k + 1, v);
      KeepsParen(Printed(g, 0), op, k);
  }

  lemma KeepsBinary(a: string, c: char, b: string, op: char, k: nat)
    requires Keeps(a, op, k) && Keeps(b, op, k) && (c == '&' || c == '|') && (k > 0 || c != op)
    ensures Keeps(a + [c] + b, op, k)
  {
    hide Keeps;
    KeepsChar(c, op, k);
    KeepsConcat(a, [c], op, k);
    KeepsConcat(a + [c], b, op, k);
  }

  // --- Splitting printed formulas -----------------------------------------------------------

  function Level(op: char): nat { if op == '|' then 0 else 1 }

  predicate Splits(f: Formula, op: char) {
    if op == '|' then f.Or? else f.And?
  }

  /** The operands of a chain of the same operator. */
  function Operands(f: Formula, op: char): (r: seq<Formula>)
    ensures |r| > 0
  {
    if op == '|' && f.Or? then Operands(f.l, op) + Operands(f.r, op)
    else if op != '|' && f.And? then Operands(f.l, op) + Operands(f.r, op)
    else [f]
  }

  function PrintedAll(fs: seq<Formula>): (r: seq<string>)
    ensures |r| == |fs| && forall k | 0 <= k < |fs| :: r[k] == Printed(fs[k], 1)
  {
    seq(|fs|, k requires 0 <= k < |fs| => Printed(fs[k], 1))
  }

  lemma PrintedAllConcat(a: seq<Formula>, b: seq<Formula>)
    ensures PrintedAll(a + b) == PrintedAll(a) + PrintedAll(b)
  {
  }

  /** Scanning a chain of operands finishes all but the last. */
  lemma {:induction false} OperandSplits(f: Formula, op: char, subs: seq<string>, v: Valuation)
    requires Named(f, v) && (op == '&' || op == '|')
    ensures var parts := PrintedAll(Operands(f, op));
            Fold(Scan(Some([]), 0, subs), Printed(f, Level(op)), op) ==
            Scan(Some(parts[|parts| - 1]), 0, subs + parts[..|parts| - 1])
  {
    hide Fold, Keeps;
    if Splits(f, op) {
      OperandSplits(f.l, op, subs, v);
      OperandSplits(f.r, op, subs + PrintedAll(Operands(f.l, op)), v);
      PrintedAllConcat(Operands(f.l, op), Operands(f.r, op));
      FoldBinary(subs, Printed(f.l, Level(op)), Printed(f.r, Level(op)), PrintedAll(Operands(f.l, op)),
          PrintedAll(Operands(f.r, op)), op);
    } else {
      PrintedKeeps(f, Level(op), op, 0, v);
      KeepsFrom(Printed(f, Level(op)), op, subs);
      SameAtLevel(f, op);
      assert PrintedAll(Operands(f, op)) == [Printed(f, 1)];
      assert subs + [] == subs;
    }
  }

  /** One chain, the operator, and another chain. */
  lemma FoldBinary(subs: seq<string>, a: string, b: string, left: seq<string>, right: seq<string>, op: char)
    requires (op == '&' || op == '|') && |left| > 0 && |right| > 0
    requires Fold(Scan(Some([]), 0, subs), a, op) == Scan(Some(left[|left| - 1]), 0, subs + left[..|left| - 1])
    requires Fold(Scan(Some([]), 0, subs + left), b, op) ==
            Scan(Some(right[|right| - 1]), 0, subs + left + right[..|right| - 1])
    ensures var parts := left + right;
            Fold(Scan(Some([]), 0, subs), a + [op] + b, op) ==
                Scan(Some(parts[|parts| - 1]), 0, subs + parts[..|parts| - 1])
  {
    hide Fold;
    var st, parts := Scan(Some([]), 0, subs), left + right;
    FoldConcat(st, a + [op], b, op);
    FoldConcat(st, a, [op], op);
    FoldOne(Fold(st, a, op), op, op);
    assert subs + left[..|left| - 1] + [left[|left| - 1]] == subs + left;
    assert subs + left + right[..|right| - 1] == subs + parts[..|parts| - 1];
  }

  lemma KeepsFrom(w: string, op: char, subs: seq<string>)
    requires Keeps(w, op, 0)
    ensures Fold(Scan(Some([]), 0, subs), w, op) == Scan(Some(w), 0, subs)
  {
    assert [] + w == w;
  }

  lemma SameAtLevel(f: Formula, op: char)
    requires !Splits(f, op)
    ensures Printed(f, Level(op)) == Printed(f, 1)
  {
  }

  /** A printed formula starts with a name character, '!' or '('. */
  lemma {:induction false} PrintedStarts(f: Formula, level: nat, v: Valuation)
    requires Named(f, v)
    ensures var w := Printed(f, level); |w| > 0 && (BelongsToName(w[0]) || w[0] == '!' || w[0] == '(')
    decreases f, if (f.Or? && level > 0) || (f.And? && level > 1) then 1 else 0
  {
    match f
    case And(l, r) => if level <= 1 { PrintedStarts(l, 1, v); }
    case Or(l, r) => if level == 0 { PrintedStarts(l, 0, v); }
    case _ =>
  }

  /** Then it makes no difference that nothing has started yet. */
  lemma {:induction false} StartAnywhere(w: string, op: char)
    requires |w| > 0 && (BelongsToName(w[0]) || w[0] == '!' || w[0] == '(')
    ensures Fold(START, w, op) == Fold(Scan(Some([]), 0, []), w, op)
  {
    var n := |w| - 1;
    if n == 0 {
      FoldOne(START, w[0], op);
      FoldOne(Scan(Some([]), 0, []), w[0], op);
      assert [] + [w[0]] == [w[0]];
      assert w == [w[0]];
    } else {
      StartAnywhere(w[..n], op);
    }
  }

  /** Splitting gives the operands as printed. */
  lemma SplitPrinted(f: Formula, op: char, v: Valuation)
    requires Named(f, v) && (op == '&' || op == '|')
    ensures Split(Printed(f, Level(op)), op) == Parsed(PrintedAll(Operands(f, op)))
  {
    hide Fold;
    PrintedStarts(f, Level(op), v);
    StartAnywhere(Printed(f, Level(op)), op);
    OperandSplits(f, op, [], v);
    var parts := PrintedAll(Operands(f, op));
    assert [] + parts[..|parts| - 1] + [parts[|parts| - 1]] == parts;
  }

  /** A formula without the operator at its top level is not split. */
  lemma SplitWhole(f: Formula, level: nat, op: char, v: Valuation)
    requires Named(f, v) && (op == '&' || op == '|') && Whole(f, level, op)
    ensures Split(Printed(f, level), op) == Parsed([Printed(f, level)])
  {
    hide Fold, Keeps;
    PrintedStarts(f, level, v);
    StartAnywhere(Printed(f, level), op);
    PrintedKeeps(f, level, op, 0, v);
    KeepsFrom(Printed(f, level), op, []);
  }

  // --- Evaluating printed formulas ----------------------------------------------------------

  lemma {:induction false} PrintedHasNoSpaces(f: Formula, level: nat, v: Valuation)
    requires Named(f, v)
    ensures forall i | 0 <= i < |Printed(f, level)| :: !IsSpace(Printed(f, level)[i])
    decreases f, if (f.Or? && level > 0) || (f.And? && level > 1) then 1 else 0
  {
    match f
    case Const(b) =>
    case Name(n) =>
    case Not(g) => PrintedHasNoSpaces(g, 2, v);
    case And(l, r) =>
      if level > 1 {
        PrintedHasNoSpaces(f, 0, v);
      } else {
        PrintedHasNoSpaces(l, 1, v);
        PrintedHasNoSpaces(r, 1, v);
      }
    case Or(l, r) =>
      if level > 0 {
        PrintedHasNoSpaces(f, 0, v);
      } else {
        PrintedHasNoSpaces(l, 0, v);
        PrintedHasNoSpaces(r, 0, v);
      }
    case Paren(g) => PrintedHasNoSpaces(g, 0, v);
  }

  /** A printed formula evaluates to its truth value. */
  lemma {:induction false} PrintedResolves(f: Formula, level: nat, v: Valuation)
    requires Named(f, v)
    ensures Resolved(Printed(f, level), v) == Value(Truth(f, v))
    decreases f, if (f.Or? && level > 0) || (f.And? && level > 1) then 1 else 0, 1
  {
    hide Split, Fold, Keeps;
    var w := Printed(f, level);
    PrintedHasNoSpaces(f, level, v);
    NoSpaces(w);
    PrintedStarts(f, level, v);
    SplitShorter(w, '|');
    SplitShorter(w, '&');
    if f.Or? && level == 0 {
      SplitPrinted(f, '|', v);
      ChainResolves(w, f, '|', v);
    } else {
      SplitWhole(f, level, '|', v);
      if f.And? && level <= 1 {
        SplitPrinted(f, '&', v);
        ChainResolves(w, f, '&', v);
      } else {
        SplitWhole(f, level, '&', v);
        SingleResolves(f, level, v);
      }
    }
  }

  /** A chain of operands, split at the top level, combines to the truth value. */
  lemma {:induction false} ChainResolves(source: string, f: Formula, op: char, v: Valuation)
    requires Named(f, v) && Splits(f, op) && (op == '&' || op == '|')
    requires |Operands(f, op)| >= 2 ==> Shorter(PrintedAll(Operands(f, op)), source)
    ensures |Operands(f, op)| >= 2 && Shorter(PrintedAll(Operands(f, op)), source)
    ensures (if op == '|' then ResolvedAny(source, PrintedAll(Operands(f, op)), v)
            else ResolvedAll(source, PrintedAll(Operands(f, op)), v))
            == Value(Truth(f, v))
    decreases f, 0, 0
  {
    hide Resolved, Split, ResolvedAny, ResolvedAll, Shorter, Printed;
    TwoOperands(f, op);
    var a, b := PrintedAll(Operands(f.l, op)), PrintedAll(Operands(f.r, op));
    PrintedAllConcat(Operands(f.l, op), Operands(f.r, op));
    ShorterParts(a, b, source);
    if op == '|' {
      AnyOperand(source, f.l, v);
      AnyOperand(source, f.r, v);
      AnyConcat(source, a, b, v);
    } else {
      AllOperands(source, f.l, v);
      AllOperands(source, f.r, v);
      AllConcat(source, a, b, v);
    }
  }

  lemma TwoOperands(f: Formula, op: char)
    requires Splits(f, op)
    ensures |Operands(f, op)| >= 2
  {
  }

  lemma {:induction false} SingleResolves(f: Formula, level: nat, v: Valuation)
    requires Named(f, v) && Whole(f, level, '&') && |Printed(f, level)| > 0
    ensures ResolvedOne(Printed(f, level), Printed(f, level), v) == Value(Truth(f, v))
    decreases f, if (f.Or? && level > 0) || (f.And? && level > 1) then 1 else 0, 0
  {
    hide Split, Resolved;
    var w := Printed(f, level);
    match f
    case Const(b) =>
    case Name(n) => assert BelongsToName(n[0]);
    case Not(g) =>
      PrintedResolves(g, 2, v);
      assert w[1..] == Printed(g, 2);
    case And(l, r) =>
      PrintedResolves(f, 0, v);
      assert w[1..|w| - 1] == Printed(f, 0);
    case Or(l, r) =>
      PrintedResolves(f, 0, v);
      assert w[1..|w| - 1] == Printed(f, 0);
    case Paren(g) =>
      PrintedResolves(g, 0, v);
      assert w[1..|w| - 1] == Printed(g, 0);
  }

  ghost predicate Shorter(subs: seq<string>, source: string) {
    forall k | 0 <= k < |subs| :: |subs[k]| < |source|
  }

  lemma {:induction false} AnyConcat(source: string, a: seq<string>, b: seq<string>, v: Valuation)
    requires Shorter(a, source) && Shorter(b, source)
    requires ResolvedAny(source, a, v).Value? && ResolvedAny(source, b, v).Value?
    ensures Shorter(a + b, source)
    ensures ResolvedAny(source, a + b, v) == Value(ResolvedAny(source, a, v).b || ResolvedAny(source, b, v).b)
  {
    hide Resolved;
    if b == [] {
      assert a + b == a;
    } else {
      var n := |b| - 1;
      AnyConcat(source, a, b[..n], v);
      assert (a + b)[..|a| + n] == a + b[..n];
    }
  }

  lemma {:induction false} AllConcat(source: string, a: seq<string>, b: seq<string>, v: Valuation)
    requires Shorter(a, source) && Shorter(b, source)
    requires ResolvedAll(source, a, v).Value? && ResolvedAll(source, b, v).Value?
    ensures Shorter(a + b, source)
    ensures ResolvedAll(source, a + b, v) == Value(ResolvedAll(source, a, v).b && ResolvedAll(source, b, v).b)
  {
    hide Resolved;
    if b == [] {
      assert a + b == a;
    } else {
      var n := |b| - 1;
      AllConcat(source, a, b[..n], v);
      assert (a + b)[..|a| + n] == a + b[..n];
    }
  }

  /** A chain of disjuncts is true if one of them is. */
  lemma {:induction false} AnyOperand(source: string, f: Formula, v: Valuation)
    requires Named(f, v) && Shorter(PrintedAll(Operands(f, '|')), source)
    ensures ResolvedAny(source, PrintedAll(Operands(f, '|')), v) == Value(Truth(f, v))
    decreases f, 2, 0
  {
    hide Resolved;
    if f.Or? {
      var a, b := PrintedAll(Operands(f.l, '|')), PrintedAll(Operands(f.r, '|'));
      PrintedAllConcat(Operands(f.l, '|'), Operands(f.r, '|'));
      ShorterParts(a, b, source);
      AnyOperand(source, f.l, v);
      AnyOperand(source, f.r, v);
      AnyConcat(source, a, b, v);
    } else {
      PrintedResolves(f, 1, v);
      assert PrintedAll(Operands(f, '|')) == [Printed(f, 1)];
      OneShorter(source, Printed(f, 1));
      AnyOne(source, Printed(f, 1), v);
    }
  }

  lemma OneShorter(source: string, w: string)
    requires Shorter([w], source)
    ensures |w| < |source|
  {
    assert [w][0] == w;
  }

  lemma {:induction false} AllOperands(source: string, f: Formula, v: Valuation)
    requires Named(f, v) && Shorter(PrintedAll(Operands(f, '&')), source)
    ensures ResolvedAll(source, PrintedAll(Operands(f, '&')), v) == Value(Truth(f, v))
    decreases f, 2, 0
  {
    hide Resolved;
    if f.And? {
      var a, b := PrintedAll(Operands(f.l, '&')), PrintedAll(Operands(f.r, '&'));
      PrintedAllConcat(Operands(f.l, '&'), Operands(f.r, '&'));
      ShorterParts(a, b, source);
      AllOperands(source, f.l, v);
      AllOperands(source, f.r, v);
      AllConcat(source, a, b, v);
    } else {
      PrintedResolves(f, 1, v);
      assert PrintedAll(Operands(f, '&')) == [Printed(f, 1)];
      OneShorter(source, Printed(f, 1));
      AnyOne(source, Printed(f, 1), v);
    }
  }

  lemma ShorterParts(a: seq<string>, b: seq<string>, source: string)
    requires Shorter(a + b, source)
    ensures Shorter(a, source) && Shorter(b, source)
  {
    forall k | 0 <= k < |a|
      ensures |a[k]| < |source|
    {
      assert (a + b)[k] == a[k];
    }
    forall k | 0 <= k < |b|
      ensures |b[k]| < |source|
    {
      assert (a + b)[|a| + k] == b[k];
    }
  }

  lemma AnyOne(source: string, w: string, v: Valuation)
    requires |w| < |source| && Resolved(w, v).Value?
    ensures ResolvedAny(source, [w], v) == Resolved(w, v) && ResolvedAll(source, [w], v) == Resolved(w, v)
  {
    hide Resolved;
    assert [w][..0] == [];
    assert ResolvedAny(source, [], v) == Value(false) && ResolvedAll(source, [], v) == Value(true);
  }

  /** Any formula, printed with any spaces added, evaluates to its truth value. */
  lemma EvaluatorCorrect(f: Formula, s: string, v: Valuation)
    requires Named(f, v) && WithoutSpaces(s) == Printed(f, 0)
    ensures Resolved(s, v) == Value(Truth(f, v))
  {
    var w := Printed(f, 0);
    PrintedResolves(f, 0, v);
    PrintedHasNoSpaces(f, 0, v);
    NoSpaces(w);
    SourceIrrelevant(s, w, v);
  }

  /** Only the text without spaces matters. */
  lemma SourceIrrelevant(s: string, w: string, v: Valuation)
    requires WithoutSpaces(s) == w && WithoutSpaces(w) == w
    ensures Resolved(s, v) == Resolved(w, v)
  {
    if w != [] {
      SplitShorter(w, '|');
      SplitShorter(w, '&');
      var ors, ands := Split(w, '|'), Split(w, '&');
      if ors.Parsed? && |ors.subs| >= 2 {
        SameCombination(s, w, ors.subs, v);
      } else if ands.Parsed? && |ands.subs| >= 2 {
        SameCombination(s, w, ands.subs, v);
      }
    }
  }

  lemma {:induction false} SameCombination(s: string, w: string, subs: seq<string>, v: Valuation)
    requires Shorter(subs, s) && Shorter(subs, w)
    ensures ResolvedAny(s, subs, v) == ResolvedAny(w, subs, v) && ResolvedAll(s, subs, v) == ResolvedAll(w, subs, v)
    decreases |subs|
  {
    hide Resolved;
    if subs != [] {
      SameCombination(s, w, subs[..|subs| - 1], v);
    }
  }
}
