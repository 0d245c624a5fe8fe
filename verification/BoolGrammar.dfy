/** Exactly which strings the boolean evaluator gives a value: the texts of a grammar in which characters that
    belong to no expression may stand in front of a chain of operands. */
module BoolGrammar {
  import opened Options
  import opened BoolExpr
  import opened BoolText

  // --- The grammar --------------------------------------------------------------------------

  datatype Loose =
    | Constant(b: bool)
    | Variable(name: string)
    | Negated(f: Loose)
    | Wrapped(f: Loose)
    | Chain(junk: string, op: char, operands: seq<Loose>)

  /** Where an expression stands: alone or in parentheses, as the first or a later operand of |, or as an
      operand of & or !. */
  datatype Place = Alone | FirstOr | LaterOr | Tight

  function PlaceOf(op: char, k: nat): Place {
    if op != '|' then Tight else if k == 0 then FirstOr else LaterOr
  }

  function Joined(subs: seq<string>, op: char): string {
    if subs == [] then []
    else if |subs| == 1 then subs[0]
    else Joined(subs[..|subs| - 1], op) + [op] + subs[|subs| - 1]
  }

  function Text(g: Loose): string {
    match g
    case Constant(b) => if b then "1" else "0"
    case Variable(n) => n
    case Negated(f) => "!" + Text(f)
    case Wrapped(f) => "(" + Text(f) + ")"
    case Chain(junk, op, operands) => junk + Joined(Texts(operands), op)
  }

  function Texts(gs: seq<Loose>): (r: seq<string>)
    ensures |r| == |gs|
  {
    if gs == [] then [] else Texts(gs[..|gs| - 1]) + [Text(gs[|gs| - 1])]
  }

  predicate Ampersands(s: string) {
    forall i | 0 <= i < |s| :: s[i] == '&'
  }

  /** What may stand in front of a chain. */
  predicate JunkAt(junk: string, place: Place) {
    match place
    case Alone => Junk(junk)
    case FirstOr => junk == []
    case LaterOr => Ampersands(junk)
    case Tight => false
  }

  /** ! binds tighter than &, and & tighter than |; variables have values. */
  predicate Sound(g: Loose, v: Valuation, place: Place) {
    match g
    case Constant(_) => true
    case Variable(n) => n in v && n != [] && n != "0" && n != "1"
    case Negated(f) => Sound(f, v, Tight)
    case Wrapped(f) => Sound(f, v, Alone)
    case Chain(junk, op, operands) =>
      && JunkAt(junk, place) && (op == '&' || (op == '|' && place == Alone))
      && |operands| >= 2 && AllSound(operands, v, op)
  }

  predicate AllSound(gs: seq<Loose>, v: Valuation, op: char) {
    gs == [] || (AllSound(gs[..|gs| - 1], v, op) && Sound(gs[|gs| - 1], v, PlaceOf(op, |gs| - 1)))
  }

  function Meaning(g: Loose, v: Valuation): bool {
    match g
    case Constant(b) => b
    case Variable(n) => n in v && v[n]
    case Negated(f) => !Meaning(f, v)
    case Wrapped(f) => Meaning(f, v)
    case Chain(_, op, operands) => if op == '|' then AnyTrue(operands, v) else AllTrue(operands, v)
  }

  predicate AnyTrue(gs: seq<Loose>, v: Valuation) {
    gs != [] && (AnyTrue(gs[..|gs| - 1], v) || Meaning(gs[|gs| - 1], v))
  }

  predicate AllTrue(gs: seq<Loose>, v: Valuation) {
    gs == [] || (AllTrue(gs[..|gs| - 1], v) && Meaning(gs[|gs| - 1], v))
  }

  // --- What a split is made of --------------------------------------------------------------

  /** Opening parentheses less closing ones. */
  function Parity(s: string): int {
    if s == [] then 0
    else Parity(s[..|s| - 1]) + if s[|s| - 1] == '(' then 1 else if s[|s| - 1] == ')' then -1 else 0
  }

  lemma ParitySnoc(s: string, c: char)
    ensures Parity(s + [c]) == Parity(s) + if c == '(' then 1 else if c == ')' then -1 else 0
  {
    assert (s + [c])[..|s|] == s;
  }

  lemma {:induction false} ParityConcat(a: string, b: string)
    ensures Parity(a + b) == Parity(a) + Parity(b)
  {
    if b == [] {
      assert a + b == a;
    } else {
      var n := |b| - 1;
      ParityConcat(a, b[..n]);
      assert a + b == (a + b[..n]) + [b[n]] && b == b[..n] + [b[n]];
      ParitySnoc(a + b[..n], b[n]);
      ParitySnoc(b[..n], b[n]);
    }
  }

  function Pieces(st: Scan): seq<string>
    requires st.Scan?
  {
    if st.current.Some? then st.subs + [st.current.value] else st.subs
  }

  /** The scan has passed over `lead` and cut up the rest. The lead has no opening parenthesis, is junk if it
      has no closing one either, and the first piece makes up for those. */
  ghost predicate Cut(s: string, op: char, st: Scan, lead: string)
    requires st.Scan?
  {
    && st.parity == Parity(s)
    && (st.current.None? ==> st.subs == [] && lead == s)
    && (st.current.Some? ==> s == lead + Joined(Pieces(st), op))
    && Parity(lead) <= 0 && (Parity(lead) == 0 ==> Junk(lead))
    && (st.subs != [] ==> Parity(lead) + Parity(st.subs[0]) == 0)
    && (forall k | 0 <= k < |Pieces(st)| :: SpaceFree(Pieces(st)[k]))
  }

  lemma {:induction false} CutIs(s: string, op: char) returns (lead: string)
    requires SpaceFree(s) && Fold(START, s, op).Scan? && (op == '|' || op == '&')
    ensures Cut(s, op, Fold(START, s, op), lead)
    ensures Intact(s, op, Fold(START, s, op), lead)
  {
    hide Intact, Cut;
    if s == [] {
      lead := [];
      NothingCut(op);
    } else {
      var n := |s| - 1;
      lead := CutIs(s[..n], op);
      lead := CutNext(s[..n], op, Fold(START, s[..n], op), lead, s[n]);
      assert s[..n] + [s[n]] == s;
    }
  }

  lemma NothingCut(op: char)
    ensures Cut([], op, START, []) && Intact([], op, START, [])
  {
  }

  lemma CutNext(s: string, op: char, st: Scan, lead: string, c: char) returns (after: string)
    requires st == Fold(START, s, op) && st.Scan? && Cut(s, op, st, lead) && Intact(s, op, st, lead)
    requires !IsSpace(c) && Step(st, c, op).Scan? && (op == '|' || op == '&')
    ensures Cut(s + [c], op, Step(st, c, op), after) && Intact(s + [c], op, Step(st, c, op), after)
  {
    hide Intact, Cut;
    if st.current.None? {
      after := CutStart(s, op, st, lead, c);
      IntactStart(s, op, st, lead, c, after);
    } else {
      after := lead;
      if Step(st, c, op).subs == st.subs {
        CutMore(s, op, st, lead, c);
        IntactMore(s, op, st, lead, c);
      } else {
        CutOff(s, op, st, lead);
        IntactOff(s, op, st, lead);
      }
    }
  }

  lemma CutStart(s: string, op: char, st: Scan, lead: string, c: char) returns (after: string)
    requires st.Scan? && st.current.None? && Cut(s, op, st, lead) && !IsSpace(c)
    ensures Step(st, c, op).Scan? && Cut(s + [c], op, Step(st, c, op), after)
    ensures Step(st, c, op).current.Some? ==> after == s
  {
    hide Parity, Joined;
    ParitySnoc(s, c);
    EmptyParity();
    var next := Step(st, c, op);
    if next.current.None? {
      after := s + [c];
      assert Pieces(next) == [];
      assert Parity(after) == 0 ==> IsJunk(c) && Junk(s);
    } else {
      after := s;
      assert Pieces(next) == [[c]];
      OnePiece([c], op);
    }
  }

  lemma CutMore(s: string, op: char, st: Scan, lead: string, c: char)
    requires st.Scan? && st.current.Some? && Cut(s, op, st, lead) && !IsSpace(c)
    requires Step(st, c, op).Scan? && Step(st, c, op).subs == st.subs
    ensures Cut(s + [c], op, Step(st, c, op), lead)
  {
    hide Parity, Joined, Junk;
    ParitySnoc(s, c);
    JoinedGrows(st.subs, st.current.value, c, op);
    var next := Step(st, c, op);
    NotCutOff(st, c, op);
    assert Pieces(next) == st.subs + [st.current.value + [c]];
    assert s + [c] == lead + (Joined(Pieces(st), op) + [c]);
    forall k | 0 <= k < |Pieces(next)|
      ensures SpaceFree(Pieces(next)[k])
    {
      assert SpaceFree(Pieces(st)[k]);
    }
  }

  lemma NotCutOff(st: Scan, c: char, op: char)
    requires st.Scan? && st.current.Some? && Step(st, c, op).Scan? && Step(st, c, op).subs == st.subs
    ensures Step(st, c, op).current == Some(st.current.value + [c])
    ensures Step(st, c, op).parity == st.parity + if c == '(' then 1 else if c == ')' then -1 else 0
  {
    assert |st.subs + [st.current.value]| != |st.subs|;
  }

  lemma CutOff(s: string, op: char, st: Scan, lead: string)
    requires st.Scan? && st.current.Some? && Cut(s, op, st, lead) && st.parity == 0 && (op == '|' || op == '&')
    ensures Step(st, op, op) == Scan(Some([]), 0, st.subs + [st.current.value])
    ensures Cut(s + [op], op, Step(st, op, op), lead)
  {
    hide Parity, Junk, Joined;
    ParitySnoc(s, op);
    var next, x := Scan(Some([]), 0, st.subs + [st.current.value]), st.current.value;
    JoinedGrows(st.subs, x, op, op);
    assert Pieces(next) == st.subs + [x] + [[]];
    assert s + [op] == lead + (Joined(Pieces(st), op) + [op]);
    if st.subs == [] {
      OnePiece(x, op);
      assert Pieces(st) == [x];
      ParityConcat(lead, x);
    }
    forall k | 0 <= k < |Pieces(next)|
      ensures SpaceFree(Pieces(next)[k])
    {
      assert k < |Pieces(st)| ==> Pieces(next)[k] == Pieces(st)[k];
    }
  }

  lemma OnePiece(x: string, op: char)
    ensures Joined([x], op) == x
  {
  }

  lemma JoinedGrows(subs: seq<string>, x: string, c: char, op: char)
    ensures Joined(subs + [x + [c]], op) == Joined(subs + [x], op) + [c]
    ensures Joined(subs + [x] + [[]], op) == Joined(subs + [x], op) + [op]
  {
    assert (subs + [x + [c]])[..|subs|] == subs && (subs + [x])[..|subs|] == subs;
    assert (subs + [x] + [[]])[..|subs| + 1] == subs + [x];
  }

  // --- Texts that a scan does not cut -------------------------------------------------------

  /** With this many open parentheses the character neither ends a subexpression nor is an error. */
  predicate Passes(parity: int, c: char, op: char) {
    || c == '(' || c == ')' || parity != 0 || BelongsToName(c) || c == '!'
    || (c != op && (c == '&' || c == '|'))
  }

  const OPEN := Scan(Some([]), 0, [])

  /** Scanned from an open subexpression, the text stays in one piece. */
  ghost predicate Uncut(w: string, op: char) {
    Fold(OPEN, w, op) == Scan(Some(w), Parity(w), [])
  }

  lemma PassesIff(st: Scan, c: char, op: char)
    requires st.Scan? && st.current.Some?
    ensures Step(st, c, op).Scan? && Step(st, c, op).subs == st.subs <==> Passes(st.parity, c, op)
    ensures Passes(st.parity, c, op) ==>
              Step(st, c, op) ==
              Scan(Some(st.current.value + [c]),
                   st.parity + (if c == '(' then 1 else if c == ')' then -1 else 0), st.subs)
  {
    assert |st.subs + [st.current.value]| != |st.subs|;
  }

  lemma UncutSnoc(w: string, c: char, op: char)
    requires Uncut(w, op)
    ensures Uncut(w + [c], op) <==> Passes(Parity(w), c, op)
  {
    hide Parity;
    assert (w + [c])[..|w|] == w;
    ParitySnoc(w, c);
    PassesIff(Scan(Some(w), Parity(w), []), c, op);
  }

  lemma UncutEmpty(op: char)
    ensures Uncut([], op)
  {
  }

  lemma UncutFront(w: string, c: char, op: char)
    requires Uncut(w + [c], op)
    ensures Uncut(w, op) && Passes(Parity(w), c, op)
  {
    hide Parity;
    assert (w + [c])[..|w|] == w;
    ParitySnoc(w, c);
    var st := Fold(OPEN, w, op);
    assert st.Scan?;
    SubsGrow(st, c, op);
    OpenStays(w, op);
    PassesIff(st, c, op);
    assert (w + [c])[..|w|] == st.current.value + [c][..0];
  }

  lemma SubsGrow(st: Scan, c: char, op: char)
    ensures Step(st, c, op).Scan? ==> st.Scan? && |st.subs| <= |Step(st, c, op).subs|
    ensures Step(st, c, op).Scan? && st.current.Some? ==> Step(st, c, op).current.Some?
  {
  }

  lemma {:induction false} OpenStays(w: string, op: char)
    requires Fold(OPEN, w, op).Scan?
    ensures Fold(OPEN, w, op).current.Some?
  {
    if w != [] {
      SubsGrow(Fold(OPEN, w[..|w| - 1], op), w[|w| - 1], op);
      OpenStays(w[..|w| - 1], op);
    }
  }

  lemma {:induction false} UncutPrefix(a: string, b: string, op: char)
    requires Uncut(a + b, op)
    ensures Uncut(a, op)
    decreases |b|
  {
    hide Uncut;
    if b == [] {
      assert a + b == a;
    } else {
      var n := |b| - 1;
      assert a + b == (a + b[..n]) + [b[n]];
      UncutFront(a + b[..n], b[n], op);
      UncutPrefix(a, b[..n], op);
    }
  }

  /** Behind a balanced beginning too. */
  lemma {:induction false} UncutTail(a: string, b: string, op: char)
    requires Uncut(a + b, op) && Parity(a) == 0
    ensures Uncut(b, op)
    decreases |b|
  {
    hide Uncut, Parity;
    if b == [] {
      UncutEmpty(op);
    } else {
      var n := |b| - 1;
      assert a + b == (a + b[..n]) + [b[n]] && b == b[..n] + [b[n]];
      UncutFront(a + b[..n], b[n], op);
      UncutTail(a, b[..n], op);
      ParityConcat(a, b[..n]);
      UncutSnoc(b[..n], b[n], op);
    }
  }

  /** Then it has no operator `op` of its own at the top level. */
  lemma {:induction false} UncutSplit(w: string, op: char)
    requires Uncut(w, op)
    ensures Fold(START, w, op).Scan? && Fold(START, w, op).subs == [] && Fold(START, w, op).parity == Parity(w)
  {
    hide Uncut, Parity;
    if w == [] {
      EmptyParity();
    } else {
      var n := |w| - 1;
      assert w == w[..n] + [w[n]];
      UncutFront(w[..n], w[n], op);
      UncutSplit(w[..n], op);
      ParitySnoc(w[..n], w[n]);
      var st := Fold(START, w[..n], op);
      if st.current.Some? {
        PassesIff(st, w[n], op);
      }
    }
  }

  /** Of the junk only & passes a scan for |. */
  lemma {:induction false} UncutJunk(j: string)
    requires Uncut(j, '|') && Junk(j)
    ensures Ampersands(j) && Parity(j) == 0
  {
    hide Uncut;
    if j != [] {
      var n := |j| - 1;
      assert j == j[..n] + [j[n]];
      UncutFront(j[..n], j[n], '|');
      UncutJunk(j[..n]);
    }
  }

  // --- The pieces of a split are uncut ------------------------------------------------------

  predicate Starter(c: char) {
    BelongsToName(c) || c == '!' || c == '('
  }

  function Other(op: char): char { if op == '|' then '&' else '|' }

  ghost predicate AllUncut(pieces: seq<string>, op: char) {
    forall k | 0 <= k < |pieces| :: Uncut(pieces[k], op)
  }

  /** If nothing but junk was passed over, no piece can be cut again, by the other operator neither unless
      the whole is. */
  ghost predicate Intact(s: string, op: char, st: Scan, lead: string)
    requires st.Scan?
  {
    var o := Fold(START, s, Other(op));
    && (o.Scan? ==> o.parity == st.parity && (o.current.Some? <==> st.current.Some?))
    && (st.current.Some? ==> |Pieces(st)[0]| > 0 && Starter(Pieces(st)[0][0]))
    && (st.current.Some? && Parity(lead) == 0 ==>
          && st.parity == Parity(st.current.value) && AllUncut(Pieces(st), op)
          && (o.Scan? && o.subs == [] ==> AllUncut(Pieces(st), Other(op))))
  }

  lemma IntactStart(s: string, op: char, st: Scan, lead: string, c: char, after: string)
    requires st == Fold(START, s, op) && st.Scan? && st.current.None? && Intact(s, op, st, lead) && Cut(s, op, st, lead)
    requires Step(st, c, op).Scan? && Cut(s + [c], op, Step(st, c, op), after)
    requires Step(st, c, op).current.Some? ==> after == s
    ensures Intact(s + [c], op, Step(st, c, op), after)
  {
    hide Parity, Uncut, Joined;
    var next := Step(st, c, op);
    OtherStep(s, c, op);
    if next.current.Some? {
      assert Pieces(next) == [[c]];
      ParitySnoc([], c);
      EmptyParity();
      assert [] + [c] == [c];
      UncutEmpty(op);
      UncutEmpty(Other(op));
      UncutSnoc([], c, op);
      UncutSnoc([], c, Other(op));
    }
  }

  lemma OtherStep(s: string, c: char, op: char)
    ensures Fold(START, s + [c], Other(op)) == Step(Fold(START, s, Other(op)), c, Other(op))
  {
    assert (s + [c])[..|s|] == s;
  }

  lemma IntactMore(s: string, op: char, st: Scan, lead: string, c: char)
    requires st.Scan? && st.current.Some? && Intact(s, op, st, lead) && Step(st, c, op).Scan?
    requires Step(st, c, op).subs == st.subs
    ensures Intact(s + [c], op, Step(st, c, op), lead)
  {
    hide Parity, Uncut;
    var next, o, x := Step(st, c, op), Fold(START, s, Other(op)), st.current.value;
    OtherStep(s, c, op);
    PassesIff(st, c, op);
    ParitySnoc(x, c);
    assert Pieces(next) == st.subs + [x + [c]] && Pieces(st) == st.subs + [x];
    assert |st.subs| == 0 ==> Pieces(next)[0][0] == Pieces(st)[0][0];
    assert |st.subs| > 0 ==> Pieces(next)[0] == Pieces(st)[0];
    SubsGrow(o, c, Other(op));
    if o.Scan? {
      PassesIff(o, c, Other(op));
    }
    if Parity(lead) == 0 {
      LastGrows(st.subs, x, c, op);
      if o.Scan? && o.subs == [] && Passes(st.parity, c, Other(op)) {
        LastGrows(st.subs, x, c, Other(op));
      }
    }
  }

  lemma LastGrows(subs: seq<string>, x: string, c: char, op: char)
    requires AllUncut(subs + [x], op) && Passes(Parity(x), c, op)
    ensures AllUncut(subs + [x + [c]], op)
  {
    hide Uncut;
    var before, after := subs + [x], subs + [x + [c]];
    assert before[|subs|] == x;
    UncutSnoc(x, c, op);
    forall k | 0 <= k < |after|
      ensures Uncut(after[k], op)
    {
      assert k < |subs| ==> after[k] == before[k];
    }
  }

  lemma IntactOff(s: string, op: char, st: Scan, lead: string)
    requires st.Scan? && st.current.Some? && Intact(s, op, st, lead) && st.parity == 0 && (op == '|' || op == '&')
    requires Step(st, op, op) == Scan(Some([]), 0, st.subs + [st.current.value])
    ensures Intact(s + [op], op, Step(st, op, op), lead)
  {
    hide Parity, Uncut;
    var next, o, x := Step(st, op, op), Fold(START, s, Other(op)), st.current.value;
    OtherStep(s, op, op);
    SubsGrow(o, op, Other(op));
    if o.Scan? {
      PassesIff(o, op, Other(op));
    }
    EmptyParity();
    UncutEmpty(op);
    UncutEmpty(Other(op));
    assert Pieces(next) == Pieces(st) + [[]];
  }

  // --- Every value is the meaning of such a text --------------------------------------------

  /** What a split of a text that gets a value is made of. */
  lemma ParsedCut(s: string, op: char) returns (lead: string)
    requires SpaceFree(s) && Split(s, op).Parsed? && (op == '|' || op == '&')
    ensures Parity(s) == 0
    ensures var subs := Split(s, op).subs;
            subs != [] ==>
              && s == lead + Joined(subs, op) && (|subs| >= 2 && Parity(subs[0]) == 0 ==> Junk(lead))
              && |subs[0]| > 0 && Starter(subs[0][0])
              && (forall k | 0 <= k < |subs| :: SpaceFree(subs[k]))
              && (Junk(lead) ==>
                    && AllUncut(subs, op)
                    && (Split(s, Other(op)).Parsed? && |Split(s, Other(op)).subs| <= 1 ==> AllUncut(subs, Other(op))))
  {
    hide Parity, Joined, Junk, AllUncut;
    lead := CutIs(s, op);
    var st, o := Fold(START, s, op), Fold(START, s, Other(op));
    assert Split(s, op).subs == Pieces(st);
    if Junk(lead) {
      JunkParity(lead);
    }
    assert o.Scan? && o.current.Some? ==> |o.subs + [o.current.value]| == |o.subs| + 1;
  }

  lemma {:induction false} JunkParity(j: string)
    requires Junk(j)
    ensures Parity(j) == 0
  {
    if j != [] {
      JunkParity(j[..|j| - 1]);
    }
  }

  lemma {:induction false} OpenWhole(w: string, op: char)
    requires Fold(OPEN, w, op).Scan? && Fold(OPEN, w, op).subs == []
    ensures Uncut(w, op)
  {
    hide Uncut, Parity;
    if w == [] {
      UncutEmpty(op);
    } else {
      var n := |w| - 1;
      var st := Fold(OPEN, w[..n], op);
      SubsGrow(st, w[n], op);
      OpenWhole(w[..n], op);
      UncutIs(w[..n], op);
      PassesIff(st, w[n], op);
      UncutSnoc(w[..n], w[n], op);
      assert w == w[..n] + [w[n]];
    }
  }

  lemma UncutIs(w: string, op: char)
    requires Uncut(w, op)
    ensures Fold(OPEN, w, op) == Scan(Some(w), Parity(w), [])
  {
  }

  /** A text that starts at once and is not split is uncut. */
  lemma SingleUncut(s: string, op: char)
    requires s != [] && Starter(s[0]) && Split(s, op).Parsed? && |Split(s, op).subs| == 1
    ensures Uncut(s, op)
  {
    hide Uncut;
    StartAnywhere(s, op);
    var st := Fold(OPEN, s, op);
    OpenStays(s, op);
    assert |st.subs + [st.current.value]| == |st.subs| + 1;
    OpenWhole(s, op);
  }

  lemma ValueBalanced(source: string, v: Valuation)
    requires Resolved(source, v).Value?
    ensures Parity(WithoutSpaces(source)) == 0 && WithoutSpaces(source) != []
  {
    hide Split, Parity, Joined;
    var s := WithoutSpaces(source);
    var lead := ParsedCut(s, '|');
  }

  /** The expression is a chain only if the text has that operator at the top level. */
  predicate ChainsAs(g: Loose, s: string) {
    g.Chain? ==> Split(s, g.op).Parsed? && |Split(s, g.op).subs| >= 2
  }

  /** Every string that gets a value is such a text, and the value is its meaning. */
  lemma ValueIsMeaning(source: string, v: Valuation) returns (g: Loose)
    requires Resolved(source, v).Value?
    ensures Sound(g, v, Alone) && Text(g) == WithoutSpaces(source) && Resolved(source, v) == Value(Meaning(g, v))
    ensures ChainsAs(g, WithoutSpaces(source))
    decreases |source|, 3, 0
  {
    hide Split, ResolvedAny, ResolvedAll, ResolvedOne, Parity, Joined, Text, Meaning, Sound, Junk, WithoutSpaces;
    var s := WithoutSpaces(source);
    SplitShorter(s, '|');
    SplitShorter(s, '&');
    var ors, ands := Split(s, '|'), Split(s, '&');
    if |ors.subs| >= 2 {
      g := ChainMeaning(source, s, '|', v);
    } else if |ands.subs| >= 2 {
      g := ChainMeaning(source, s, '&', v);
    } else {
      ValueBalanced(source, v);
      g := SingleMeaning(source, s, v);
    }
  }

  lemma ChainMeaning(source: string, s: string, op: char, v: Valuation) returns (g: Loose)
    requires SpaceFree(s) && |s| <= |source| && (op == '|' || op == '&')
    requires Split(s, op).Parsed? && |Split(s, op).subs| >= 2
    requires op == '&' ==> Split(s, '|').Parsed? && |Split(s, '|').subs| <= 1
    requires forall k | 0 <= k < |Split(s, op).subs| :: |Split(s, op).subs[k]| < |source|
    requires Combined(source, Split(s, op).subs, op, v).Value?
    ensures Sound(g, v, Alone) && Text(g) == s && Combined(source, Split(s, op).subs, op, v) == Value(Meaning(g, v))
    ensures ChainsAs(g, s)
    decreases |source|, 2, 0
  {
    hide Split, Parity, Joined, Resolved, Junk, ResolvedAny, ResolvedAll, AllUncut;
    var subs := Split(s, op).subs;
    var lead := ParsedCut(s, op);
    FirstValue(source, subs, op, v);
    ValueBalanced(subs[0], v);
    NoSpaces(subs[0]);
    var gs := OperandsMeaning(source, subs, op, v);
    g := Chain(lead, op, gs);
  }

  function Combined(source: string, subs: seq<string>, op: char, v: Valuation): Result
    requires forall k | 0 <= k < |subs| :: |subs[k]| < |source|
  {
    if op == '|' then ResolvedAny(source, subs, v) else ResolvedAll(source, subs, v)
  }

  lemma {:induction false} FirstValue(source: string, subs: seq<string>, op: char, v: Valuation)
    requires subs != [] && forall k | 0 <= k < |subs| :: |subs[k]| < |source|
    requires Combined(source, subs, op, v).Value?
    ensures Resolved(subs[0], v).Value?
    decreases |subs|
  {
    hide Resolved;
    if |subs| > 1 {
      FirstValue(source, subs[..|subs| - 1], op, v);
    }
  }

  /** The parts of a split: none can be cut again, and the first starts an expression. */
  ghost predicate Parts(subs: seq<string>, op: char) {
    && AllUncut(subs, op) && (op == '&' ==> AllUncut(subs, '|'))
    && (subs != [] ==> |subs[0]| > 0 && Starter(subs[0][0]))
  }

  lemma {:induction false} OperandsMeaning(source: string, subs: seq<string>, op: char, v: Valuation)
    returns (gs: seq<Loose>)
    requires forall k | 0 <= k < |subs| :: |subs[k]| < |source| && SpaceFree(subs[k])
    requires Combined(source, subs, op, v).Value? && Parts(subs, op) && (op == '|' || op == '&')
    ensures |gs| == |subs| && AllSound(gs, v, op) && Texts(gs) == subs
    ensures Combined(source, subs, op, v) == Value(if op == '|' then AnyTrue(gs, v) else AllTrue(gs, v))
    decreases |source|, 1, |subs|
  {
    hide Resolved, Text, Meaning, Sound, Uncut, Parts, WithoutSpaces, ChainsAs, AllSound, Texts, AnyTrue, AllTrue,
      ResolvedAny, ResolvedAll, SpaceFree;
    CombinedParts(source, subs, op, v);
    if subs == [] {
      gs := [];
      NoOperands(v, op);
    } else {
      var n := |subs| - 1;
      PartsApart(subs, op);
      var front := OperandsMeaning(source, subs[..n], op, v);
      SpaceFreeWhole(subs[n]);
      var last := ValueIsMeaning(subs[n], v);
      Demoted(last, subs[n], v, op, n);
      gs := front + [last];
      OperandsTogether(front, last, v, op);
    }
  }

  lemma SpaceFreeWhole(w: string)
    requires SpaceFree(w)
    ensures WithoutSpaces(w) == w
  {
    NoSpaces(w);
  }

  lemma NoOperands(v: Valuation, op: char)
    ensures AllSound([], v, op) && Texts([]) == [] && !AnyTrue([], v) && AllTrue([], v)
  {
  }

  lemma PartsApart(subs: seq<string>, op: char)
    requires subs != [] && Parts(subs, op)
    ensures var n := |subs| - 1;
            && Parts(subs[..n], op) && Uncut(subs[n], op) && (op == '&' ==> Uncut(subs[n], '|'))
            && (n == 0 ==> subs[n] != [] && Starter(subs[n][0]))
  {
    hide Uncut;
  }

  lemma CombinedParts(source: string, subs: seq<string>, op: char, v: Valuation)
    requires forall k | 0 <= k < |subs| :: |subs[k]| < |source|
    ensures subs == [] ==> Combined(source, subs, op, v) == Value(op != '|')
    ensures subs != [] ==>
              var n := |subs| - 1;
              var front, last := Combined(source, subs[..n], op, v), Resolved(subs[n], v);
              Combined(source, subs, op, v) ==
              if front.Failure? then front else if last.Failure? then last
              else Value(if op == '|' then front.b || last.b else front.b && last.b)
  {
    hide Resolved;
  }

  lemma OperandsTogether(front: seq<Loose>, last: Loose, v: Valuation, op: char)
    requires AllSound(front, v, op) && Sound(last, v, PlaceOf(op, |front|))
    ensures var gs := front + [last];
            && AllSound(gs, v, op) && Texts(gs) == Texts(front) + [Text(last)]
            && AnyTrue(gs, v) == (AnyTrue(front, v) || Meaning(last, v))
            && AllTrue(gs, v) == (AllTrue(front, v) && Meaning(last, v))
  {
    assert (front + [last])[..|front|] == front;
  }

  /** What has no operator of its own is sound as an operand. */
  lemma Demoted(g: Loose, w: string, v: Valuation, op: char, k: nat)
    requires Sound(g, v, Alone) && Text(g) == w && ChainsAs(g, w) && (op == '|' || op == '&')
    requires Uncut(w, op) && (op == '&' ==> Uncut(w, '|')) && (op == '|' && k == 0 ==> w != [] && Starter(w[0]))
    ensures Sound(g, v, PlaceOf(op, k))
  {
    hide Uncut, AllSound, Joined, Texts;
    if g.Chain? {
      UncutSplit(w, op);
      if op == '&' {
        UncutSplit(w, '|');
      } else {
        assert g.junk != [] ==> w[0] == g.junk[0];
        UncutPrefix(g.junk, Joined(Texts(g.operands), g.op), '|');
        UncutJunk(g.junk);
      }
    }
  }

  lemma SingleMeaning(source: string, s: string, v: Valuation) returns (g: Loose)
    requires SpaceFree(s) && 0 < |s| <= |source| && Parity(s) == 0 && ResolvedOne(source, s, v).Value?
    requires Split(s, '|').Parsed? && |Split(s, '|').subs| == 1 && Split(s, '&').Parsed? && |Split(s, '&').subs| == 1
    ensures Sound(g, v, Alone) && Text(g) == s && ResolvedOne(source, s, v) == Value(Meaning(g, v)) && !g.Chain?
    decreases |source|, 1, 0
  {
    hide Resolved, Parity, Split;
    if s[0] == '!' {
      var t := s[1..];
      var f := ValueIsMeaning(t, v);
      NoSpaces(t);
      assert s == "!" + t;
      NotUncut(t);
      Demoted(f, t, v, '&', 0);
      g := Negated(f);
    } else if s[0] == '(' {
      var inner := if |s| >= 2 then s[1..|s| - 1] else [];
      ValueBalanced(inner, v);
      NoSpaces(inner);
      var f := ValueIsMeaning(inner, v);
      g := Wrapped(f);
      InnerIs(s);
    } else if s == "1" || s == "0" {
      g := Constant(s == "1");
    } else {
      g := Variable(s);
    }
  }

  lemma NotUncut(t: string)
    requires Split("!" + t, '|').Parsed? && |Split("!" + t, '|').subs| == 1
    requires Split("!" + t, '&').Parsed? && |Split("!" + t, '&').subs| == 1
    ensures Uncut(t, '|') && Uncut(t, '&')
  {
    hide Split, Uncut;
    EmptyParity();
    ParitySnoc([], '!');
    assert [] + ['!'] == "!";
    SingleUncut("!" + t, '|');
    SingleUncut("!" + t, '&');
    UncutTail("!", t, '|');
    UncutTail("!", t, '&');
  }

  /** When the inside is balanced the last character is the closing parenthesis. */
  lemma InnerIs(s: string)
    requires Parity(s) == 0 && s != [] && s[0] == '('
    requires |s| >= 2 ==> Parity(s[1..|s| - 1]) == 0
    ensures |s| >= 2 && s == "(" + s[1..|s| - 1] + ")"
  {
    hide Parity;
    ParitySnoc([], '(');
    EmptyParity();
    assert [] + ['('] == ['('];
    assert |s| == 1 ==> s == ['('];
    if |s| > 1 {
      var inner, c := s[1..|s| - 1], s[|s| - 1];
      assert s == (['('] + inner) + [c];
      ParitySnoc(['('] + inner, c);
      ParityConcat(['('], inner);
    }
  }

  lemma EmptyParity()
    ensures Parity([]) == 0
  {
  }

  // --- Every such text gets its meaning -----------------------------------------------------

  predicate IsWord(n: string) {
    forall i | 0 <= i < |n| :: BelongsToName(n[i])
  }

  /** Every variable is a word of name characters. */
  predicate Words(g: Loose) {
    match g
    case Constant(_) => true
    case Variable(n) => IsWord(n)
    case Negated(f) => Words(f)
    case Wrapped(f) => Words(f)
    case Chain(_, _, operands) => AllWords(operands)
  }

  predicate AllWords(gs: seq<Loose>) {
    gs == [] || (AllWords(gs[..|gs| - 1]) && Words(gs[|gs| - 1]))
  }

  lemma KeepsEmpty(op: char, k: nat)
    ensures Keeps([], op, k)
  {
    forall x: string, subs: seq<string>
      ensures Fold(Scan(Some(x), k, subs), [], op) == Scan(Some(x + []), k, subs)
    {
      assert x + [] == x;
    }
  }

  lemma {:induction false} KeepsJunk(j: string, op: char, k: nat)
    requires (k > 0 && Junk(j)) || (op == '|' && Ampersands(j))
    ensures Keeps(j, op, k)
  {
    hide Keeps;
    if j == [] {
      KeepsEmpty(op, k);
    } else {
      var n := |j| - 1;
      KeepsJunk(j[..n], op, k);
      KeepsChar(j[n], op, k);
      KeepsConcat(j[..n], [j[n]], op, k);
      assert j == j[..n] + [j[n]];
    }
  }

  lemma AmpersandsJunk(j: string)
    requires Ampersands(j)
    ensures Junk(j)
  {
  }

  /** Inside parentheses a text is passed over; at the top level too, if it is no chain, or a chain of & that
      is an operand of | and scanned for |. */
  lemma {:induction false} TextKeeps(g: Loose, v: Valuation, place: Place, op: char, k: nat)
    requires Sound(g, v, place) && Words(g) && (op == '&' || op == '|')
    requires k > 0 || !g.Chain? || (op == '|' && place != Alone)
    ensures Keeps(Text(g), op, k)
    decreases g
  {
    hide Keeps, Joined;
    match g
    case Constant(b) =>
      KeepsChar('0', op, k);
      KeepsChar('1', op, k);
    case Variable(n) => KeepsName(n, op, k);
    case Negated(f) =>
      KeepsChar('!', op, k);
      TextKeeps(f, v, Tight, op, k);
      KeepsConcat("!", Text(f), op, k);
    case Wrapped(f) =>
      TextKeeps(f, v, Alone, op, k + 1);
      KeepsParen(Text(f), op, k);
    case Chain(junk, gop, operands) =>
      if Ampersands(junk) {
        AmpersandsJunk(junk);
      }
      JoinedKeeps(operands, v, gop, op, k);
      KeepsJunk(junk, op, k);
      KeepsConcat(junk, Joined(Texts(operands), gop), op, k);
  }

  lemma {:induction false} JoinedKeeps(gs: seq<Loose>, v: Valuation, gop: char, op: char, k: nat)
    requires gs != [] && AllSound(gs, v, gop) && AllWords(gs) && (op == '&' || op == '|') && (gop == '&' || gop == '|')
    requires k > 0 || (gop == '&' && op == '|')
    ensures Keeps(Joined(Texts(gs), gop), op, k)
    decreases gs
  {
    hide Keeps, Text, Sound, Words;
    var n := |gs| - 1;
    var front, last := gs[..n], gs[n];
    NotChain(last, v);
    TextKeeps(last, v, PlaceOf(gop, n), op, k);
    if n > 0 {
      JoinedKeeps(front, v, gop, op, k);
      KeepsBinary(Joined(Texts(front), gop), gop, Text(last), op, k);
      assert Texts(gs)[..n] == Texts(front);
    }
  }

  lemma NotChain(g: Loose, v: Valuation)
    ensures Sound(g, v, Tight) ==> !g.Chain?
  {
  }

  /** A text without junk in front starts an expression. */
  lemma {:induction false} TextStarts(g: Loose, v: Valuation, place: Place)
    requires Sound(g, v, place) && Words(g) && (g.Chain? ==> g.junk == [])
    ensures Text(g) != [] && Starter(Text(g)[0])
    decreases g
  {
    hide Joined;
    match g
    case Chain(junk, gop, operands) =>
      JoinedStarts(operands, v, gop);
      assert [] + Joined(Texts(operands), gop) == Joined(Texts(operands), gop);
    case _ =>
  }

  lemma {:induction false} JoinedStarts(gs: seq<Loose>, v: Valuation, op: char)
    requires gs != [] && AllSound(gs, v, op) && AllWords(gs) && (op == '&' || op == '|')
    ensures Joined(Texts(gs), op) != [] && Starter(Joined(Texts(gs), op)[0])
    decreases gs
  {
    hide Text, Words;
    var n := |gs| - 1;
    if n == 0 {
      TextStarts(gs[0], v, PlaceOf(op, 0));
    } else {
      JoinedStarts(gs[..n], v, op);
      assert Texts(gs)[..n] == Texts(gs[..n]);
    }
  }

  lemma {:induction false} TextSpaceFree(g: Loose, v: Valuation, place: Place)
    requires Sound(g, v, place) && Words(g)
    ensures SpaceFree(Text(g))
    decreases g
  {
    hide Joined;
    match g
    case Chain(junk, gop, operands) => JoinedSpaceFree(operands, v, gop);
    case Negated(f) => TextSpaceFree(f, v, Tight);
    case Wrapped(f) => TextSpaceFree(f, v, Alone);
    case _ =>
  }

  lemma {:induction false} JoinedSpaceFree(gs: seq<Loose>, v: Valuation, op: char)
    requires AllSound(gs, v, op) && AllWords(gs) && (op == '&' || op == '|')
    ensures SpaceFree(Joined(Texts(gs), op))
    decreases gs
  {
    hide Text, Words;
    if gs != [] {
      var n := |gs| - 1;
      TextSpaceFree(gs[n], v, PlaceOf(op, n));
      JoinedSpaceFree(gs[..n], v, op);
      assert Texts(gs)[..n] == Texts(gs[..n]);
    }
  }

  /** Scanning a chain finishes all operands but the last. */
  lemma {:induction false} FoldJoined(gs: seq<Loose>, v: Valuation, op: char)
    requires gs != [] && AllSound(gs, v, op) && AllWords(gs) && (op == '&' || op == '|')
    ensures var parts := Texts(gs);
            Fold(OPEN, Joined(parts, op), op) == Scan(Some(parts[|parts| - 1]), 0, parts[..|parts| - 1])
    decreases gs
  {
    hide Fold, Keeps, Text, Words, Joined;
    var n := |gs| - 1;
    NotChain(gs[n], v);
    TextKeeps(gs[n], v, PlaceOf(op, n), op, 0);
    if n == 0 {
      KeepsFrom(Text(gs[n]), op, []);
      OnePiece(Text(gs[n]), op);
      assert Texts(gs) == [Text(gs[n])];
    } else {
      FoldJoined(gs[..n], v, op);
      LastJoined(Texts(gs[..n]), Text(gs[n]), op);
    }
  }

  lemma LastJoined(front: seq<string>, last: string, op: char)
    requires front != [] && Keeps(last, op, 0) && (op == '&' || op == '|')
    requires Fold(OPEN, Joined(front, op), op) == Scan(Some(front[|front| - 1]), 0, front[..|front| - 1])
    ensures var parts := front + [last];
            Fold(OPEN, Joined(parts, op), op) == Scan(Some(parts[|parts| - 1]), 0, parts[..|parts| - 1])
  {
    hide Fold, Keeps;
    var n, parts := |front|, front + [last];
    KeepsFrom(last, op, front);
    assert [] + front[..n - 1] == front[..n - 1] && [] + front == front && front + [] == front;
    assert [last][..0] == [];
    FoldBinary([], Joined(front, op), last, front, [last], op);
    assert parts[..n] == front && [] + parts[..n] == parts[..n];
  }

  lemma SplitChain(junk: string, gs: seq<Loose>, v: Valuation, op: char)
    requires Junk(junk) && gs != [] && AllSound(gs, v, op) && AllWords(gs) && (op == '&' || op == '|')
    ensures Split(junk + Joined(Texts(gs), op), op) == Parsed(Texts(gs))
  {
    hide Fold;
    var body, parts := Joined(Texts(gs), op), Texts(gs);
    SplitJunk(junk, body, op);
    JoinedStarts(gs, v, op);
    StartAnywhere(body, op);
    FoldJoined(gs, v, op);
    assert parts[..|parts| - 1] + [parts[|parts| - 1]] == parts;
  }

  lemma SplitKept(w: string, op: char)
    requires w != [] && Starter(w[0]) && Keeps(w, op, 0)
    ensures Split(w, op) == Parsed([w])
  {
    hide Fold, Keeps;
    StartAnywhere(w, op);
    KeepsFrom(w, op, []);
  }

  /** Every sound text of words evaluates to its meaning. */
  lemma {:induction false} TextResolves(g: Loose, v: Valuation, place: Place)
    requires Sound(g, v, place) && Words(g)
    ensures Resolved(Text(g), v) == Value(Meaning(g, v))
    decreases g, 2
  {
    hide Split, Keeps, Joined, ResolvedAny, ResolvedAll, ResolvedOne, Meaning, WithoutSpaces;
    var w := Text(g);
    TextSpaceFree(g, v, place);
    NoSpaces(w);
    SplitShorter(w, '|');
    SplitShorter(w, '&');
    if g.Chain? {
      ChainText(g, v, place);
      OperandsResolve(w, g.operands, v, g.op);
      TextNotEmpty(g, v, place);
      ChainMeans(g, v);
    } else {
      TextStarts(g, v, place);
      TextKeeps(g, v, place, '|', 0);
      TextKeeps(g, v, place, '&', 0);
      SplitKept(w, '|');
      SplitKept(w, '&');
      OneResolves(g, v, place);
    }
  }

  lemma ChainMeans(g: Loose, v: Valuation)
    requires g.Chain?
    ensures Meaning(g, v) == if g.op == '|' then AnyTrue(g.operands, v) else AllTrue(g.operands, v)
  {
  }

  lemma TextNotEmpty(g: Loose, v: Valuation, place: Place)
    requires Sound(g, v, place) && Words(g) && g.Chain?
    ensures Text(g) != []
  {
    JoinedStarts(g.operands, v, g.op);
  }

  lemma ChainText(g: Loose, v: Valuation, place: Place)
    requires Sound(g, v, place) && Words(g) && g.Chain?
    ensures Split(Text(g), g.op) == Parsed(Texts(g.operands)) && |g.operands| >= 2
    ensures g.op == '&' ==> Split(Text(g), '|').Parsed? && |Split(Text(g), '|').subs| == 1
  {
    hide Split, Keeps, Joined;
    if Ampersands(g.junk) {
      AmpersandsJunk(g.junk);
    }
    SplitChain(g.junk, g.operands, v, g.op);
    if g.op == '&' {
      var body := Joined(Texts(g.operands), '&');
      SplitJunk(g.junk, body, '|');
      JoinedStarts(g.operands, v, '&');
      JoinedKeeps(g.operands, v, '&', '|', 0);
      SplitKept(body, '|');
    }
  }

  lemma {:induction false} OperandsResolve(source: string, gs: seq<Loose>, v: Valuation, op: char)
    requires AllSound(gs, v, op) && AllWords(gs) && (op == '&' || op == '|')
    requires forall k | 0 <= k < |gs| :: |Texts(gs)[k]| < |source|
    ensures Combined(source, Texts(gs), op, v) == Value(if op == '|' then AnyTrue(gs, v) else AllTrue(gs, v))
    decreases gs, 1
  {
    hide Resolved, Text, Meaning, Words;
    if gs != [] {
      var n := |gs| - 1;
      assert Texts(gs)[..n] == Texts(gs[..n]) && Texts(gs)[n] == Text(gs[n]);
      assert forall k | 0 <= k < n :: Texts(gs[..n])[k] == Texts(gs)[k];
      OperandsResolve(source, gs[..n], v, op);
      TextResolves(gs[n], v, PlaceOf(op, n));
    }
  }

  lemma {:induction false} OneResolves(g: Loose, v: Valuation, place: Place)
    requires Sound(g, v, place) && Words(g) && !g.Chain? && Text(g) != []
    ensures ResolvedOne(Text(g), Text(g), v) == Value(Meaning(g, v))
    decreases g, 0
  {
    hide Resolved;
    var w := Text(g);
    match g
    case Constant(b) =>
    case Variable(n) => assert BelongsToName(n[0]);
    case Negated(f) =>
      TextResolves(f, v, Tight);
      assert w[1..] == Text(f);
    case Wrapped(f) =>
      TextResolves(f, v, Alone);
      assert w[1..|w| - 1] == Text(f);
  }

  // --- Exactly ------------------------------------------------------------------------------

  /** The names of the valuation are made of name characters. */
  predicate ProperNames(v: Valuation) {
    forall n <- v :: IsWord(n)
  }

  /** Some reading of the text in the grammar has this meaning. */
  ghost predicate ReadsAs(s: string, v: Valuation, b: bool) {
    exists g: Loose :: Sound(g, v, Alone) && Text(g) == s && Meaning(g, v) == b
  }

  lemma {:induction false} SoundWords(g: Loose, v: Valuation, place: Place)
    requires ProperNames(v) && Sound(g, v, place)
    ensures Words(g)
    decreases g
  {
    match g
    case Negated(f) => SoundWords(f, v, Tight);
    case Wrapped(f) => SoundWords(f, v, Alone);
    case Chain(_, op, operands) => AllSoundWords(operands, v, op);
    case _ =>
  }

  lemma {:induction false} AllSoundWords(gs: seq<Loose>, v: Valuation, op: char)
    requires ProperNames(v) && AllSound(gs, v, op)
    ensures AllWords(gs)
    decreases gs
  {
    if gs != [] {
      AllSoundWords(gs[..|gs| - 1], v, op);
      SoundWords(gs[|gs| - 1], v, PlaceOf(op, |gs| - 1));
    }
  }

  /** A string gets a value exactly if, without its spaces, it is a text of the grammar, and the value is the
      meaning of that text. */
  lemma ValueIff(source: string, v: Valuation, b: bool)
    requires ProperNames(v)
    ensures Resolved(source, v) == Value(b) <==> ReadsAs(WithoutSpaces(source), v, b)
  {
    hide Resolved, Sound, Meaning, Text;
    var s := WithoutSpaces(source);
    if Resolved(source, v) == Value(b) {
      var g := ValueIsMeaning(source, v);
    }
    if ReadsAs(s, v, b) {
      var g :| Sound(g, v, Alone) && Text(g) == s && Meaning(g, v) == b;
      SoundWords(g, v, Alone);
      TextResolves(g, v, Alone);
      NoSpaces(s);
      SourceIrrelevant(source, s, v);
    }
  }

  /** Every text has at most one meaning. */
  lemma OneMeaning(g: Loose, f: Loose, v: Valuation)
    requires ProperNames(v) && Sound(g, v, Alone) && Sound(f, v, Alone) && Text(g) == Text(f)
    ensures Meaning(g, v) == Meaning(f, v)
  {
    SoundWords(g, v, Alone);
    SoundWords(f, v, Alone);
    TextResolves(g, v, Alone);
    TextResolves(f, v, Alone);
  }

  /** Junk inside parentheses is passed over like junk in front of the whole. */
  lemma JunkInside(v: Valuation)
    requires "a" in v && "b" in v
    ensures Resolved("($a|b)", v) == Value(v["a"] || v["b"])
  {
    hide Resolved;
    var a, b := Variable("a"), Variable("b");
    var g := Wrapped(Chain("$", '|', [a, b]));
    TwoOperandsOf(a, b, v, '|');
    TwoJoined("a", "b", '|');
    assert Text(g) == "(" + ("$" + "a|b") + ")" == "($a|b)";
    TextResolves(g, v, Alone);
  }

  lemma TwoOperandsOf(a: Loose, b: Loose, v: Valuation, op: char)
    ensures Texts([a, b]) == [Text(a), Text(b)]
    ensures AllSound([a, b], v, op) <==> Sound(a, v, PlaceOf(op, 0)) && Sound(b, v, PlaceOf(op, 1))
    ensures AllWords([a, b]) <==> Words(a) && Words(b)
    ensures AnyTrue([a, b], v) == (Meaning(a, v) || Meaning(b, v))
  {
    var pair, one := [a, b], [a];
    assert pair[..1] == one && one[..0] == [];
    assert Texts(one) == [Text(a)];
    assert AllSound([], v, op) && AllWords([]) && !AnyTrue([], v);
    assert AllSound(one, v, op) <==> Sound(a, v, PlaceOf(op, 0));
    assert AllWords(one) <==> Words(a);
    assert AnyTrue(one, v) == Meaning(a, v);
  }

  lemma TwoJoined(x: string, y: string, op: char)
    ensures Joined([x, y], op) == x + [op] + y
  {
    assert [x, y][..1] == [x];
  }
}
