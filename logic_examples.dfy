/**
 * The examples documented on the parser's methods, each as a lemma about the model.
 */
module LogicExamples {
  import opened Wrappers
  import opened PyStrings
  import opened LogicParser
  import opened LogicExtraction
  import opened LogicRoundTrip

  /** A one-digit operand, as the examples use: a printable word that reads as itself. */
  lemma Numeral(w: string)
    requires |w| == 1 && '0' <= w[0] <= '9'
    ensures Printable(w) && ')' !in w && !HasPrefix(w, KeyPrefix)
    ensures forall table :: w !in table ==> ResolveOperand(table, w) == Literal(w)
  {
    assert w == [w[0]];
    assert Rank(w) == 0;
  }

  // ---------------------------------------------------------------------------
  // the NOT layer
  // ---------------------------------------------------------------------------

  /** `_proc_end_value('NOT 1')`. */
  lemma NotExample()
    ensures ProcEndValue(map[], "NOT 1") == Ok(Op(NOT, [Literal("1")]))
  {
    Numeral("1");
    LeafParses(map[], Negated("1"));
    assert LeafText(Negated("1")) == "NOT 1";
  }

  /** `_proc_end_value('HC:1')`. */
  lemma HealthCheckExample()
    ensures ProcEndValue(map[], "HC:1") == Ok(HealthCheck("1"))
  {
    LeafParses(map[], Atom("HC:1"));
  }

  /** `_proc_end_value('Rule:1')`. */
  lemma RuleExample()
    ensures ProcEndValue(map[], "Rule:1") == Ok(RuleRef("1"))
  {
    assert "Rule:1"[..|HcPrefix|][0] != HcPrefix[0];
    LeafParses(map[], Atom("Rule:1"));
  }

  /** `_proc_end_value('1 NOT 2')`: text before the `NOT `. */
  lemma FirstPartExample()
    ensures ProcEndValue(map[], "1 NOT 2") == Err(UnexpectedFirstPart)
  {
    var s := "1 NOT 2";
    OneNotSplit("1 ", "2");
    assert "1 " + NotSep + "2" == s;
    SplitCount(s, NotSep);
    MismatchAt(s, NotSep, 0, 0);
    MismatchAt(s, NotSep, 1, 0);
    FindFromIs(s, NotSep, 0, 2);
    assert !IsSpace(s[..2][0]);
    ProcEndValueOne(map[], s);
  }

  /** `_proc_end_value('1 NOT 2 NOT 3')`: two `NOT `s. */
  lemma PartCountExample()
    ensures ProcEndValue(map[], "1 NOT 2 NOT 3") == Err(UnexpectedPartCount)
  {
    var s := "1 NOT 2 NOT 3";
    assert s == "1 " + NotSep + ("2 " + NotSep + "3");
    TwoNotsSplit(s);
    SplitCount(s, NotSep);
  }

  lemma TwoNotsSplit(s: string)
    requires s == "1 " + NotSep + ("2 " + NotSep + "3")
    ensures |Split(s, NotSep)| == 3
  {
    OneNotSplit("2 ", "3");
    MismatchAt("1 " + NotSep, NotSep, 0, 0);
    MismatchAt("1 " + NotSep, NotSep, 1, 0);
    SplitCons("1 ", NotSep, "2 " + NotSep + "3");
  }

  /** A digit and a space, then `NOT `, then a digit, splits at the `NOT `. */
  lemma OneNotSplit(a: string, b: string)
    requires a == "1 " || a == "2 "
    requires b == "2" || b == "3"
    ensures Split(a + NotSep + b, NotSep) == [a, b]
  {
    MismatchAt(a + NotSep, NotSep, 0, 0);
    MismatchAt(a + NotSep, NotSep, 1, 0);
    MismatchAt(b + NotSep, NotSep, 0, 0);
    SplitSingle(b, NotSep);
    SplitCons(a, NotSep, b);
  }

  // ---------------------------------------------------------------------------
  // the splitting layers
  // ---------------------------------------------------------------------------

  /** A lone printable word written at `layer`. */
  function WordExpr(layer: Layer, w: string): Expr
    decreases Depth(layer)
  {
    match layer
    case OrLayer => Chain([WordExpr(AndLayer, w)])
    case AndLayer => Chain([WordExpr(XorLayer, w)])
    case XorLayer => Chain([Single(Atom(w))])
  }

  lemma {:induction false} WordExprFacts(table: map<string, IR>, layer: Layer, w: string)
    requires Printable(w)
    ensures Fits(layer, WordExpr(layer, w))
    ensures Render(layer, WordExpr(layer, w)) == w
    ensures Meaning(table, layer, WordExpr(layer, w)) == ResolveOperand(table, w)
    decreases Depth(layer)
  {
    match layer
    case OrLayer =>
      WordExprFacts(table, AndLayer, w);
      FitsOne(OrLayer, WordExpr(AndLayer, w));
      RenderOne(OrLayer, WordExpr(AndLayer, w));
      MeaningOne(table, OrLayer, WordExpr(AndLayer, w));
    case AndLayer =>
      WordExprFacts(table, XorLayer, w);
      FitsOne(AndLayer, WordExpr(XorLayer, w));
      RenderOne(AndLayer, WordExpr(XorLayer, w));
      MeaningOne(table, AndLayer, WordExpr(XorLayer, w));
    case XorLayer =>
      FitsOne(XorLayer, Single(Atom(w)));
      RenderOne(XorLayer, Single(Atom(w)));
      MeaningOne(table, XorLayer, Single(Atom(w)));
  }

  /** Two printable words joined by a layer's separator make one node of that layer. */
  lemma TwoWords(table: map<string, IR>, layer: Layer, a: string, b: string)
    requires Printable(a) && Printable(b)
    ensures ProcLayer(table, layer, a + Separator(layer) + b)
            == Ok(Op(Combinator(layer), [ResolveOperand(table, a), ResolveOperand(table, b)]))
  {
    var x := BelowWord(layer, a);
    var y := BelowWord(layer, b);
    BelowWordFacts(table, layer, a);
    BelowWordFacts(table, layer, b);
    FitsTwo(layer, x, y);
    RenderTwo(layer, x, y);
    MeaningTwo(table, layer, x, y);
    RoundTrip(table, layer, Chain([x, y]));
  }

  /** A lone printable word written under `layer`. */
  function BelowWord(layer: Layer, w: string): Expr
  {
    match layer
    case OrLayer => WordExpr(AndLayer, w)
    case AndLayer => WordExpr(XorLayer, w)
    case XorLayer => Single(Atom(w))
  }

  lemma BelowWordFacts(table: map<string, IR>, layer: Layer, w: string)
    requires Printable(w)
    ensures FitsBelow(layer, BelowWord(layer, w))
    ensures RenderBelow(layer, BelowWord(layer, w)) == w
    ensures MeaningBelow(table, layer, BelowWord(layer, w)) == ResolveOperand(table, w)
  {
    match layer
    case OrLayer => WordExprFacts(table, AndLayer, w);
    case AndLayer => WordExprFacts(table, XorLayer, w);
    case XorLayer =>
  }

  /** `_proc_exp('1 OR 2')`. */
  lemma OrExample()
    ensures ProcExp(map[], "1 OR 2") == Ok(Op(OR, [Literal("1"), Literal("2")]))
  {
    assert "1" + OrSep + "2" == "1 OR 2";
    Numeral("1"); Numeral("2");
    TwoWords(map[], OrLayer, "1", "2");
  }

  /** `_proc_and('1 AND 2')`. */
  lemma AndExample()
    ensures ProcLayer(map[], AndLayer, "1 AND 2") == Ok(Op(AND, [Literal("1"), Literal("2")]))
  {
    assert "1" + AndSep + "2" == "1 AND 2";
    Numeral("1"); Numeral("2");
    TwoWords(map[], AndLayer, "1", "2");
  }

  /** `_proc_and('1 XOR 2')`: with no ` AND ` the text goes down to the XOR layer. */
  lemma XorExample()
    ensures ProcLayer(map[], AndLayer, "1 XOR 2") == Ok(Op(XOR, [Literal("1"), Literal("2")]))
  {
    var s := "1" + XorSep + "2";
    assert s == "1 XOR 2";
    Numeral("1"); Numeral("2");
    TwoWords(map[], XorLayer, "1", "2");
    assert ProcLayer(map[], XorLayer, s) == Ok(Op(XOR, [Literal("1"), Literal("2")]));
    XorUnderAnd(map[], "1", "2");
  }

  lemma XorUnderAnd(table: map<string, IR>, a: string, b: string)
    requires Printable(a) && Printable(b)
    ensures ProcLayer(table, AndLayer, a + XorSep + b) == ProcLayer(table, XorLayer, a + XorSep + b)
  {
    var x := Chain([Single(Atom(a)), Single(Atom(b))]);
    FitsTwo(XorLayer, Single(Atom(a)), Single(Atom(b)));
    RenderTwo(XorLayer, Single(Atom(a)), Single(Atom(b)));
    FitsOne(AndLayer, x);
    RenderOne(AndLayer, x);
    MeaningOne(table, AndLayer, x);
    RoundTrip(table, AndLayer, Chain([x]));
    RoundTrip(table, XorLayer, x);
  }

  // ---------------------------------------------------------------------------
  // whole expressions
  // ---------------------------------------------------------------------------

  /** `NOT c XOR d` written at the XOR layer. */
  function NotXor(c: string, d: string): Expr
  {
    Chain([Single(Negated(c)), Single(Atom(d))])
  }

  /** `b AND NOT c XOR d` written at the AND layer. */
  function AndNotXor(b: string, c: string, d: string): Expr
  {
    Chain([WordExpr(XorLayer, b), NotXor(c, d)])
  }

  lemma AndNotXorFacts(table: map<string, IR>, b: string, c: string, d: string)
    requires Printable(b) && Printable(c) && Printable(d)
    ensures Fits(AndLayer, AndNotXor(b, c, d))
    ensures Render(AndLayer, AndNotXor(b, c, d)) == b + AndSep + (NotSep + c + XorSep + d)
    ensures Meaning(table, AndLayer, AndNotXor(b, c, d))
            == Op(AND, [ResolveOperand(table, b), Op(XOR, [Op(NOT, [ResolveOperand(table, c)]), ResolveOperand(table, d)])])
  {
    var x := NotXor(c, d);
    FitsTwo(XorLayer, Single(Negated(c)), Single(Atom(d)));
    RenderTwo(XorLayer, Single(Negated(c)), Single(Atom(d)));
    MeaningTwo(table, XorLayer, Single(Negated(c)), Single(Atom(d)));
    WordExprFacts(table, XorLayer, b);
    FitsTwo(AndLayer, WordExpr(XorLayer, b), x);
    RenderTwo(AndLayer, WordExpr(XorLayer, b), x);
    MeaningTwo(table, AndLayer, WordExpr(XorLayer, b), x);
  }

  /** `a OR b AND NOT c XOR d`: AND binds tighter than OR, XOR tighter than AND. */
  lemma MixedParses(a: string, b: string, c: string, d: string)
    requires Printable(a) && Printable(b) && Printable(c) && Printable(d)
    ensures ParseExpression(a + OrSep + (b + AndSep + (NotSep + c + XorSep + d)))
            == Ok(Op(OR, [ResolveOperand(map[], a),
                          Op(AND, [ResolveOperand(map[], b),
                                   Op(XOR, [Op(NOT, [ResolveOperand(map[], c)]), ResolveOperand(map[], d)])])]))
  {
    var y := AndNotXor(b, c, d);
    AndNotXorFacts(map[], b, c, d);
    WordExprFacts(map[], AndLayer, a);
    FitsTwo(OrLayer, WordExpr(AndLayer, a), y);
    RenderTwo(OrLayer, WordExpr(AndLayer, a), y);
    MeaningTwo(map[], OrLayer, WordExpr(AndLayer, a), y);
    ParseRoundTrip(Chain([WordExpr(AndLayer, a), y]));
  }

  /** `Parser().parse('1 OR 2 AND NOT 3 XOR 4')`. */
  lemma MixedExample()
    ensures ParseExpression("1 OR 2 AND NOT 3 XOR 4")
            == Ok(Op(OR, [Literal("1"), Op(AND, [Literal("2"), Op(XOR, [Op(NOT, [Literal("3")]), Literal("4")])])]))
  {
    assert "1" + OrSep + ("2" + AndSep + (NotSep + "3" + XorSep + "4")) == "1 OR 2 AND NOT 3 XOR 4";
    Numeral("1"); Numeral("2"); Numeral("3"); Numeral("4");
    MixedParses("1", "2", "3", "4");
  }

  // ---------------------------------------------------------------------------
  // one group in front
  // ---------------------------------------------------------------------------

  /** A text that opens with one group and has no other `(`: the group is the first match. */
  lemma LeadingGroup(inner: string, rest: string)
    requires |inner| >= 1 && '(' !in inner && ')' !in inner
    ensures var s := "(" + inner + ")" + rest;
      && FirstGroup(s) == Some(Span(0, |inner| + 2))
      && s[0..|inner| + 2] == "(" + inner + ")"
      && s[1..|inner| + 1] == inner
  {
    var s := "(" + inner + ")" + rest;
    var q := |inner| + 2;
    assert s[1..q - 1] == inner && s[0..q] == "(" + inner + ")";
    forall j | 1 <= j < q - 1 ensures s[j] != '(' && s[j] != ')' {
      assert s[j] == inner[j - 1];
    }
    FirstGroupIs(s, 0, q);
  }

  /** Replacing the leading group leaves the key followed by the rest. */
  lemma ReplaceLeadingGroup(group: string, rest: string, key: string)
    requires |group| > 0 && group[0] == '(' && '(' !in rest
    ensures ReplaceAll(group + rest, group, key) == key + rest
  {
    forall i | 0 <= i < |rest| ensures !OccursAt(rest + group, group, i) {
      assert (rest + group)[i] == rest[i];
      MismatchAt(rest + group, group, i, 0);
    }
    SplitSingle(rest, group);
    SplitCons([], group, rest);
    assert [] + group + rest == group + rest;
    JoinCons([], [rest], key);
  }

  /** Extraction on such a text takes one step: the group's parse is stored under its
      key and the key takes the group's place. */
  lemma ExtractLeadingGroup(inner: string, rest: string, ir: IR)
    requires |inner| >= 1 && '(' !in inner && ')' !in inner && '(' !in rest
    requires ProcExp(map[], inner) == Ok(ir)
    ensures Extract("(" + inner + ")" + rest, map[])
            == Extraction(Ok(Key(inner) + rest), map[Key(inner) := ir])
  {
    var key := Key(inner);
    KeyShape(inner);
    LeadingStep(inner, rest, ir);
    ExtractRewritten("(" + inner + ")" + rest, map[], key + rest, map[key := ir]);
    assert '(' !in key + rest;
    assert Extract(key + rest, map[key := ir]) == Extraction(Ok(key + rest), map[key := ir]);
  }

  lemma LeadingStep(inner: string, rest: string, ir: IR)
    requires |inner| >= 1 && '(' !in inner && ')' !in inner && '(' !in rest
    requires ProcExp(map[], inner) == Ok(ir)
    ensures ExtractStep("(" + inner + ")" + rest, map[]) == Rewritten(Key(inner) + rest, map[Key(inner) := ir])
  {
    var group := "(" + inner + ")";
    var s := group + rest;
    var g := Span(0, |inner| + 2);
    var key := Key(inner);
    KeyShape(inner);
    LeadingGroup(inner, rest);
    assert s[g.start + 1..g.end - 1] == inner && s[g.start..g.end] == group;
    ReplaceLeadingGroup(group, rest, key);
    ExtractStepParsed(s, map[], g, ir);
    assert ExtractStep(s, map[]) == Rewritten(ReplaceAll(s, group, key), map[][key := ir]);
  }

  /** A key is a printable word: the `KEY.` marker rules out the layer keywords. */
  lemma KeyPrintable(inner: string)
    ensures Printable(Key(inner))
  {
    var k := Key(inner);
    KeyShape(inner);
    assert |k| >= 4;
  }

  /** What is left once the group is replaced by its key: `key AND NOT c XOR d`. */
  lemma KeyAndNotXor(table: map<string, IR>, key: string, c: string, d: string)
    requires Printable(key) && Printable(c) && Printable(d)
    ensures ProcExp(table, key + AndSep + (NotSep + c + XorSep + d))
            == Ok(Op(AND, [ResolveOperand(table, key),
                           Op(XOR, [Op(NOT, [ResolveOperand(table, c)]), ResolveOperand(table, d)])]))
  {
    var y := AndNotXor(key, c, d);
    AndNotXorFacts(table, key, c, d);
    FitsOne(OrLayer, y);
    RenderOne(OrLayer, y);
    MeaningOne(table, OrLayer, y);
    RoundTrip(table, OrLayer, Chain([y]));
  }

  /** Regrouping a concatenation, kept apart so the long proofs below do not search for it. */
  lemma ConcatAssoc(x: string, y: string, z: string)
    ensures x + (y + z) == x + y + z
  {
  }

  /** A leading group whose inside parses is looked up under its key by the parse of
      the rest. */
  lemma ParseLeadingGroup(inner: string, rest: string, ir: IR)
    requires |inner| >= 1 && '(' !in inner && ')' !in inner && '(' !in rest
    requires ProcExp(map[], inner) == Ok(ir)
    ensures ParseExpression("(" + inner + ")" + rest) == ProcExp(map[Key(inner) := ir], Key(inner) + rest)
  {
    ExtractLeadingGroup(inner, rest, ir);
  }

  /** A leading `(a OR b)` is parsed into an OR node and looked up under its key. */
  lemma LeadingOrGroup(a: string, b: string, rest: string)
    requires Printable(a) && Printable(b) && ')' !in a && ')' !in b && '(' !in rest
    ensures var inner := a + OrSep + b;
      ParseExpression("(" + inner + ")" + rest)
      == ProcExp(map[Key(inner) := Op(OR, [ResolveOperand(map[], a), ResolveOperand(map[], b)])], Key(inner) + rest)
  {
    var inner := a + OrSep + b;
    TwoWords(map[], OrLayer, a, b);
    assert '(' !in inner && ')' !in inner;
    ParseLeadingGroup(inner, rest, Op(OR, [ResolveOperand(map[], a), ResolveOperand(map[], b)]));
  }

  /** `(a OR b) AND NOT c XOR d`: the group is parsed first and stands as one operand
      of the AND, found again under its key. */
  lemma GroupedParses(a: string, b: string, c: string, d: string)
    requires Printable(a) && Printable(b) && Printable(c) && Printable(d)
    requires ')' !in a && ')' !in b
    requires !HasPrefix(c, KeyPrefix) && !HasPrefix(d, KeyPrefix)
    ensures ParseExpression("(" + (a + OrSep + b) + ")" + (AndSep + (NotSep + c + XorSep + d)))
            == Ok(Op(AND, [Op(OR, [ResolveOperand(map[], a), ResolveOperand(map[], b)]),
                           Op(XOR, [Op(NOT, [ResolveOperand(map[], c)]), ResolveOperand(map[], d)])]))
  {
    var inner := a + OrSep + b;
    var rest := AndSep + (NotSep + c + XorSep + d);
    var orIR := Op(OR, [ResolveOperand(map[], a), ResolveOperand(map[], b)]);
    LeadingOrGroup(a, b, rest);
    var key := Key(inner);
    var table := map[key := orIR];
    KeyPrintable(inner);
    KeyAndNotXor(table, key, c, d);
    ConcatAssoc(key, AndSep, NotSep + c + XorSep + d);
    assert c != key && d != key;
    assert ResolveOperand(table, key) == orIR;
    assert ResolveOperand(table, c) == ResolveOperand(map[], c);
    assert ResolveOperand(table, d) == ResolveOperand(map[], d);
  }

  /** `Parser().parse('(1 OR 2) AND NOT 3 XOR 4')`. */
  lemma GroupedExample()
    ensures ParseExpression("(1 OR 2) AND NOT 3 XOR 4")
            == Ok(Op(AND, [Op(OR, [Literal("1"), Literal("2")]),
                           Op(XOR, [Op(NOT, [Literal("3")]), Literal("4")])]))
  {
    assert "(" + ("1" + OrSep + "2") + ")" + (AndSep + (NotSep + "3" + XorSep + "4")) == "(1 OR 2) AND NOT 3 XOR 4";
    Numeral("1"); Numeral("2"); Numeral("3"); Numeral("4");
    GroupedParses("1", "2", "3", "4");
  }

  /** `Parser().parse('(1 OR 2')`: a `(` the pattern cannot match. */
  lemma UnmatchedExample()
    ensures ParseExpression("(1 OR 2") == Err(UnmatchedParenthesis)
  {
    var s := "(1 OR 2";
    assert ')' !in s;
    assert FirstGroup(s).None?;
  }
}
