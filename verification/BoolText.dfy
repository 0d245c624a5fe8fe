/** Characters that belong to no expression, in front of a text for the boolean evaluator. */
module BoolText {
  import opened Options
  import opened BoolExpr

  // --- Characters that are passed over ------------------------------------------------------

  /** In front of an expression these are skipped. */
  predicate IsJunk(c: char) {
    !BelongsToName(c) && c != '!' && c != '(' && c != ')' && !IsSpace(c)
  }

  predicate Junk(s: string) {
    forall i | 0 <= i < |s| :: IsJunk(s[i])
  }

  predicate SpaceFree(s: string) {
    forall i | 0 <= i < |s| :: !IsSpace(s[i])
  }

  lemma {:induction false} FoldJunk(j: string, op: char)
    requires Junk(j)
    ensures Fold(START, j, op) == START
  {
    if j != [] {
      FoldJunk(j[..|j| - 1], op);
    }
  }

  lemma SplitJunk(j: string, t: string, op: char)
    requires Junk(j)
    ensures Split(j + t, op) == Split(t, op)
  {
    FoldJunk(j, op);
    FoldConcat(START, j, t, op);
  }

  /** There is an operator at the top level. */
  predicate IsChain(s: string) {
    var ors, ands := Split(s, '|'), Split(s, '&');
    && ors.Parsed?
    && (|ors.subs| >= 2 || (|ors.subs| == 1 && ands.Parsed? && |ands.subs| >= 2))
  }

  lemma JunkSpaces(j: string, t: string)
    requires Junk(j) && SpaceFree(t)
    ensures WithoutSpaces(j + t) == j + t && WithoutSpaces(t) == t
  {
    NoSpaces(j + t);
    NoSpaces(t);
  }

  /** Junk in front of a text is ignored if the text has an operator at the top level, and makes it worthless
      otherwise. */
  lemma JunkIgnored(j: string, t: string, v: Valuation)
    requires Junk(j) && j != [] && SpaceFree(t)
    ensures IsChain(t) ==> Resolved(j + t, v) == Resolved(t, v)
    ensures !IsChain(t) && j + t !in v ==> Resolved(j + t, v).Failure?
  {
    hide Split, WithoutSpaces;
    var s := j + t;
    JunkSpaces(j, t);
    SplitJunk(j, t, '|');
    SplitJunk(j, t, '&');
    SplitShorter(s, '|');
    SplitShorter(s, '&');
    if IsChain(t) {
      ChainSame(s, t, v);
    } else if s !in v {
      JunkFails(s, v);
    }
  }

  lemma ChainSame(s: string, t: string, v: Valuation)
    requires WithoutSpaces(s) == s && WithoutSpaces(t) == t && IsChain(t)
    requires Split(s, '|') == Split(t, '|') && Split(s, '&') == Split(t, '&')
    ensures Resolved(s, v) == Resolved(t, v)
  {
    hide Split, WithoutSpaces, ResolvedAny, ResolvedAll, ResolvedOne;
    SplitShorter(s, '|');
    SplitShorter(s, '&');
    SplitShorter(t, '|');
    SplitShorter(t, '&');
    ChainNotEmpty(s);
    ChainNotEmpty(t);
    var ors, ands := Split(t, '|'), Split(t, '&');
    if |ors.subs| >= 2 {
      SameCombination(s, t, ors.subs, v);
    } else {
      SameCombination(s, t, ands.subs, v);
    }
  }

  lemma JunkFails(s: string, v: Valuation)
    requires WithoutSpaces(s) == s && s != [] && IsJunk(s[0]) && !IsChain(s) && s !in v
    ensures Resolved(s, v).Failure?
  {
    hide Split, WithoutSpaces, ResolvedAny, ResolvedAll;
    assert s != "1" && s != "0" by {
      assert "1"[0] == '1' && "0"[0] == '0';
    }
  }

  lemma ChainNotEmpty(t: string)
    requires IsChain(t)
    ensures t != []
  {
  }

  /** So a text that is no formula gets the value of one. */
  lemma JunkWitness(v: Valuation)
    requires "a" in v && "b" in v
    ensures Resolved("$a|b", v) == Value(v["a"] || v["b"])
  {
    hide Split, Resolved;
    var f := Or(Name("a"), Name("b"));
    assert Printed(f, 0) == "a|b";
    PrintedResolves(f, 0, v);
    TwoParts();
    JunkIgnored("$", "a|b", v);
    assert "$" + "a|b" == "$a|b";
  }

  lemma TwoParts()
    ensures IsChain("a|b")
  {
    var v: Valuation := map["a" := true, "b" := true];
    var f := Or(Name("a"), Name("b"));
    assert Printed(f, 0) == "a|b";
    SplitPrinted(f, '|', v);
    TwoOperands(f, '|');
  }
}
