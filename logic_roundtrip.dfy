/**
 * The surface language the split parser reads, as a grammar: an OR chain of AND
 * chains of XOR chains of leaves, a leaf being a word or `NOT` and a word, the
 * chains written with single spaces around their keywords. Rendering such an
 * expression and parsing the text gives back the tree the layers promise.
 */
module LogicRoundTrip {
  import opened Wrappers
  import opened PyStrings
  import opened LogicParser
  import opened LogicExtraction

  // ---------------------------------------------------------------------------
  // the surface grammar
  // ---------------------------------------------------------------------------

  datatype Leaf = Atom(word: string) | Negated(word: string)

  /** A chain of the layer's operands (one operand: no keyword at this layer), or,
      under the XOR layer, a leaf. */
  datatype Expr = Chain(parts: seq<Expr>) | Single(leaf: Leaf)

  const NotWord := "NOT"

  /** The keyword that joins the operands of `layer`. */
  function Keyword(layer: Layer): string
  {
    match layer
    case OrLayer => "OR"
    case AndLayer => "AND"
    case XorLayer => "XOR"
  }

  /** How high a word reaches: a layer keyword reaches its layer, any other word nowhere. */
  function Rank(w: string): nat
  {
    if w == "OR" then 3 else if w == "AND" then 2 else if w == "XOR" then 1 else 0
  }

  /** A word that can stand as an operand: no whitespace, no `(`, not a layer keyword. */
  predicate Printable(w: string)
  {
    IsWord(w) && '(' !in w && Rank(w) == 0
  }

  /** An expression written at `layer`: a non-empty chain of what the layer below writes. */
  predicate Fits(layer: Layer, e: Expr)
    decreases e, Depth(layer), 1
  {
    e.Chain? && |e.parts| >= 1 && forall k :: 0 <= k < |e.parts| ==> FitsBelow(layer, e.parts[k])
  }

  predicate FitsBelow(layer: Layer, e: Expr)
    decreases e, Depth(layer), 0
  {
    match layer
    case OrLayer => Fits(AndLayer, e)
    case AndLayer => Fits(XorLayer, e)
    case XorLayer => e.Single? && Printable(e.leaf.word)
  }

  // ---------------------------------------------------------------------------
  // writing an expression down
  // ---------------------------------------------------------------------------

  function LeafText(l: Leaf): string
  {
    match l
    case Atom(w) => w
    case Negated(w) => NotSep + w
  }

  function LeafTokens(l: Leaf): seq<string>
  {
    match l
    case Atom(w) => [w]
    case Negated(w) => [NotWord, w]
  }

  /** The text of `e` at `layer`: its operands' texts joined by the layer's separator. */
  function Render(layer: Layer, e: Expr): string
    decreases e, Depth(layer), 1
  {
    match e
    case Single(l) => LeafText(l)
    case Chain(ps) => Join(seq(|ps|, k requires 0 <= k < |ps| => RenderBelow(layer, ps[k])), Separator(layer))
  }

  function RenderBelow(layer: Layer, e: Expr): string
    decreases e, Depth(layer), 0
  {
    match layer
    case OrLayer => Render(AndLayer, e)
    case AndLayer => Render(XorLayer, e)
    case XorLayer => if e.Single? then LeafText(e.leaf) else ""
  }

  /** The words of `Render(layer, e)`, in order. */
  function Tokens(layer: Layer, e: Expr): seq<string>
    decreases e, Depth(layer), 1
  {
    match e
    case Single(l) => LeafTokens(l)
    case Chain(ps) => Join(seq(|ps|, k requires 0 <= k < |ps| => TokensBelow(layer, ps[k])), [Keyword(layer)])
  }

  function TokensBelow(layer: Layer, e: Expr): seq<string>
    decreases e, Depth(layer), 0
  {
    match layer
    case OrLayer => Tokens(AndLayer, e)
    case AndLayer => Tokens(XorLayer, e)
    case XorLayer => if e.Single? then LeafTokens(e.leaf) else []
  }

  // ---------------------------------------------------------------------------
  // what an expression means
  // ---------------------------------------------------------------------------

  function LeafMeaning(table: map<string, IR>, l: Leaf): IR
  {
    match l
    case Atom(w) => ResolveOperand(table, w)
    case Negated(w) => Op(NOT, [ResolveOperand(table, w)])
  }

  /** The tree of `e` at `layer`: a chain of one operand is that operand's tree, a longer
      chain one node of the layer's operator over its operands' trees. */
  function Meaning(table: map<string, IR>, layer: Layer, e: Expr): IR
    decreases e, Depth(layer), 1
  {
    match e
    case Single(l) => LeafMeaning(table, l)
    case Chain(ps) =>
      if |ps| == 1 then MeaningBelow(table, layer, ps[0])
      else Op(Combinator(layer), seq(|ps|, k requires 0 <= k < |ps| => MeaningBelow(table, layer, ps[k])))
  }

  function MeaningBelow(table: map<string, IR>, layer: Layer, e: Expr): IR
    decreases e, Depth(layer), 0
  {
    match layer
    case OrLayer => Meaning(table, AndLayer, e)
    case AndLayer => Meaning(table, XorLayer, e)
    case XorLayer => LeafMeaning(table, if e.Single? then e.leaf else Atom(""))
  }

  // ---------------------------------------------------------------------------
  // the text is the words joined by single spaces
  // ---------------------------------------------------------------------------

  lemma SeparatorSpaced(layer: Layer)
    ensures Separator(layer) == " " + Keyword(layer) + " "
    ensures IsWord(Keyword(layer)) && '(' !in Keyword(layer) && Rank(Keyword(layer)) == Depth(layer)
  {
  }

  /** Joining word lists by a keyword and spacing the words out is spacing out each
      list and joining the texts by the keyword with a space on either side. */
  lemma {:induction false} UnwordsJoin(tss: seq<seq<string>>, kw: string)
    requires |tss| >= 1 && forall k :: 0 <= k < |tss| ==> |tss[k]| >= 1
    ensures Unwords(Join(tss, [kw])) == Join(seq(|tss|, k requires 0 <= k < |tss| => Unwords(tss[k])), " " + kw + " ")
    decreases |tss|
  {
    var rs := seq(|tss|, k requires 0 <= k < |tss| => Unwords(tss[k]));
    if |tss| > 1 {
      var tail := tss[1..];
      var b := Join(tail, [kw]);
      assert |b| >= 1 by {
        if |tail| > 1 { assert b == tail[0] + [kw] + Join(tail[1..], [kw]); }
      }
      UnwordsJoin(tail, kw);
      JoinAppend(tss[0], [kw] + b, " ");
      JoinCons(kw, b, " ");
      assert Join(tss, [kw]) == tss[0] + ([kw] + b);
      assert rs[1..] == seq(|tail|, k requires 0 <= k < |tail| => Unwords(tail[k]));
    }
  }

  /** Non-empty words, none holding `(`, none reaching above `rank`. */
  predicate WordsUpTo(ts: seq<string>, rank: nat)
  {
    |ts| >= 1 && forall k :: 0 <= k < |ts| ==> IsWord(ts[k]) && '(' !in ts[k] && Rank(ts[k]) <= rank
  }

  lemma {:induction false} JoinWords(tss: seq<seq<string>>, kw: string, rank: nat)
    requires |tss| >= 1 && forall k :: 0 <= k < |tss| ==> WordsUpTo(tss[k], rank)
    requires IsWord(kw) && '(' !in kw && Rank(kw) <= rank
    ensures WordsUpTo(Join(tss, [kw]), rank)
    decreases |tss|
  {
    if |tss| > 1 {
      JoinWords(tss[1..], kw, rank);
      assert Join(tss, [kw]) == tss[0] + [kw] + Join(tss[1..], [kw]);
    }
  }

  /** An expression's text is its words spaced out; the words are printable words,
      `NOT` and the keywords of its layer and the layers under it. */
  lemma {:induction false} RenderSpaced(layer: Layer, e: Expr)
    requires Fits(layer, e)
    ensures Render(layer, e) == Unwords(Tokens(layer, e))
    ensures WordsUpTo(Tokens(layer, e), Depth(layer))
    decreases e, Depth(layer), 1
  {
    var ps := e.parts;
    var tss := seq(|ps|, k requires 0 <= k < |ps| => TokensBelow(layer, ps[k]));
    var rs := seq(|ps|, k requires 0 <= k < |ps| => RenderBelow(layer, ps[k]));
    forall k | 0 <= k < |ps|
      ensures rs[k] == Unwords(tss[k]) && WordsUpTo(tss[k], Depth(layer))
    {
      RenderBelowSpaced(layer, ps[k]);
    }
    UnwordsJoin(tss, Keyword(layer));
    SeparatorSpaced(layer);
    assert rs == seq(|tss|, k requires 0 <= k < |tss| => Unwords(tss[k]));
    JoinWords(tss, Keyword(layer), Depth(layer));
  }

  lemma {:induction false} RenderBelowSpaced(layer: Layer, e: Expr)
    requires FitsBelow(layer, e)
    ensures RenderBelow(layer, e) == Unwords(TokensBelow(layer, e))
    ensures WordsUpTo(TokensBelow(layer, e), Depth(layer) - 1)
    decreases e, Depth(layer), 0
  {
    match layer
    case OrLayer => RenderSpaced(AndLayer, e);
    case AndLayer => RenderSpaced(XorLayer, e);
    case XorLayer =>
      match e.leaf
      case Atom(w) =>
      case Negated(w) =>
        JoinCons(NotWord, [w], " ");
        assert [NotWord] + [w] == [NotWord, w];
  }

  // ---------------------------------------------------------------------------
  // parsing a rendered expression gives back its meaning
  // ---------------------------------------------------------------------------

  /** A separator with a space in it never occurs inside a single word. */
  lemma WordAvoids(w: string, d: string, p: nat)
    requires IsWord(w) && p < |d| && d[p] == ' '
    ensures forall j :: !OccursAt(w, d, j)
  {
    forall j ensures !OccursAt(w, d, j) {
      if 0 <= j && j + |d| <= |w| {
        assert w[j..j + |d|][p] == w[j + p];
      }
    }
  }

  /** The NOT layer reads a written leaf back: a word resolves as an operand, `NOT`
      and a word become a NOT node over the resolved word. */
  lemma LeafParses(table: map<string, IR>, l: Leaf)
    requires Printable(l.word)
    ensures ProcEndValue(table, LeafText(l)) == Ok(LeafMeaning(table, l))
  {
    var w := l.word;
    match l
    case Atom(_) =>
      WordAvoids(w, NotSep, 3);
      CountFromNone(w, NotSep, 0);
    case Negated(_) =>
      var s := NotSep + w;
      NegatedSplit(w);
      assert s[..0] == [] && s[|NotSep|..] == w;
      StripKeeps(w);
      ProcEndValueOne(table, s);
  }

  /** `NOT ` and a printable word hold exactly one `NOT `, at the start. */
  lemma NegatedSplit(w: string)
    requires Printable(w)
    ensures CountOcc(NotSep + w, NotSep) == 1 && FindFrom(NotSep + w, NotSep, 0) == Some(0)
  {
    var s := NotSep + w;
    var t := w + NotSep;
    forall i | 0 <= i < |w| ensures !OccursAt(t, NotSep, i) {
      // the separator's space would sit on a letter of `w` or of `NOT`
      assert !IsSpace(t[i + 3]) by {
        if i + 3 < |w| { assert t[i + 3] == w[i + 3]; } else { assert t[i + 3] == NotSep[i + 3 - |w|]; }
      }
      assert t[i..i + |NotSep|][3] == t[i + 3];
    }
    SplitSingle(w, NotSep);
    SplitCons("", NotSep, w);
    assert "" + NotSep + w == s;
    SplitCount(s, NotSep);
    FindFromIs(s, NotSep, 0, 0);
  }

  /** `_split` takes apart a join of texts that hold no separator and need no stripping. */
  lemma SplitStrippedJoin(texts: seq<string>, d: string)
    requires |texts| >= 1 && |d| > 0
    requires forall k :: 0 <= k < |texts| ==> |texts[k]| > 0 && Trimmed(texts[k]) && SplitsCleanly(texts[k], d)
    ensures SplitStripped(Join(texts, d), d) == texts
    ensures CountOcc(Join(texts, d), d) == |texts| - 1
  {
    var s := Join(texts, d);
    SplitJoin(texts, d);
    SplitCount(s, d);
    var parts := SplitStripped(s, d);
    forall k | 0 <= k < |texts| ensures parts[k] == texts[k] {
      StripKeeps(texts[k]);
    }
  }

  /** A splitting layer reads back the join of texts that hold no separator and need
      no stripping: one text is handed down, several make one node over what the layer
      below reads from each. */
  lemma ProcLayerJoin(table: map<string, IR>, layer: Layer, texts: seq<string>, vals: seq<IR>)
    requires |texts| >= 1 && |vals| == |texts|
    requires forall k :: 0 <= k < |texts| ==>
      |texts[k]| > 0 && Trimmed(texts[k]) && SplitsCleanly(texts[k], Separator(layer))
    requires forall k :: 0 <= k < |texts| ==> ProcBelow(table, layer, texts[k]) == Ok(vals[k])
    ensures ProcLayer(table, layer, Join(texts, Separator(layer)))
            == Ok(if |vals| == 1 then vals[0] else Op(Combinator(layer), vals))
  {
    SplitStrippedJoin(texts, Separator(layer));
    if |texts| == 1 {
      ProcLayerOne(table, layer, texts[0]);
    } else {
      ProcLayerMany(table, layer, Join(texts, Separator(layer)), vals);
    }
  }

  lemma ProcLayerOne(table: map<string, IR>, layer: Layer, text: string)
    requires |text| > 0 && Trimmed(text) && SplitsCleanly(text, Separator(layer))
    ensures ProcLayer(table, layer, Join([text], Separator(layer))) == ProcBelow(table, layer, text)
  {
    SplitStrippedJoin([text], Separator(layer));
    ProcLayerSplits(table, layer, text);
    StripKeeps(text);
  }

  lemma ProcLayerMany(table: map<string, IR>, layer: Layer, s: string, vals: seq<IR>)
    requires |vals| >= 2 && CountOcc(s, Separator(layer)) == |vals| - 1
    requires forall k :: 0 <= k < |vals| ==> ProcBelow(table, layer, SplitStripped(s, Separator(layer))[k]) == Ok(vals[k])
    ensures ProcLayer(table, layer, s) == Ok(Op(Combinator(layer), vals))
  {
    ProcLayerSplits(table, layer, s);
    assert ProcLayer(table, layer, s).value.operands == vals;
  }

  /** The parser reads a written expression back as its meaning, at every layer. */
  lemma {:induction false} RoundTrip(table: map<string, IR>, layer: Layer, e: Expr)
    requires Fits(layer, e)
    ensures ProcLayer(table, layer, Render(layer, e)) == Ok(Meaning(table, layer, e))
    decreases e, Depth(layer), 1
  {
    var ps := e.parts;
    var texts := seq(|ps|, k requires 0 <= k < |ps| => RenderBelow(layer, ps[k]));
    var vals := seq(|ps|, k requires 0 <= k < |ps| => MeaningBelow(table, layer, ps[k]));
    SeparatorSpaced(layer);
    forall k | 0 <= k < |ps|
      ensures |texts[k]| > 0 && Trimmed(texts[k]) && SplitsCleanly(texts[k], Separator(layer))
      ensures ProcBelow(table, layer, texts[k]) == Ok(vals[k])
    {
      RenderBelowSpaced(layer, ps[k]);
      var ts := TokensBelow(layer, ps[k]);
      UnwordsEnds(ts);
      UnwordsAvoids(ts, Keyword(layer));
      RoundTripBelow(table, layer, ps[k]);
    }
    ProcLayerJoin(table, layer, texts, vals);
  }

  lemma {:induction false} RoundTripBelow(table: map<string, IR>, layer: Layer, e: Expr)
    requires FitsBelow(layer, e)
    ensures ProcBelow(table, layer, RenderBelow(layer, e)) == Ok(MeaningBelow(table, layer, e))
    decreases e, Depth(layer), 0
  {
    match layer
    case OrLayer => RoundTrip(table, AndLayer, e);
    case AndLayer => RoundTrip(table, XorLayer, e);
    case XorLayer => LeafParses(table, e.leaf);
  }

  lemma {:induction false} JoinAvoids<T>(parts: seq<seq<T>>, d: seq<T>, c: T)
    requires c !in d && forall k :: 0 <= k < |parts| ==> c !in parts[k]
    ensures c !in Join(parts, d)
    decreases |parts|
  {
    if |parts| > 1 {
      JoinAvoids(parts[1..], d, c);
    }
  }

  /** `Parser.parse` reads a written expression back as its meaning: the text has no
      `(`, so nothing is extracted and the side table stays empty. */
  lemma ParseRoundTrip(e: Expr)
    requires Fits(OrLayer, e)
    ensures ParseExpression(Render(OrLayer, e)) == Ok(Meaning(map[], OrLayer, e))
  {
    RenderSpaced(OrLayer, e);
    JoinAvoids(Tokens(OrLayer, e), " ", '(');
    RoundTrip(map[], OrLayer, e);
  }

  // ---------------------------------------------------------------------------
  // chains of one and of two operands
  // ---------------------------------------------------------------------------

  lemma RenderOne(layer: Layer, p: Expr)
    ensures Render(layer, Chain([p])) == RenderBelow(layer, p)
  {
  }

  lemma RenderTwo(layer: Layer, p: Expr, q: Expr)
    ensures Render(layer, Chain([p, q])) == RenderBelow(layer, p) + Separator(layer) + RenderBelow(layer, q)
  {
    var rs := seq(2, k requires 0 <= k < 2 => RenderBelow(layer, [p, q][k]));
    assert rs == [RenderBelow(layer, p)] + [RenderBelow(layer, q)];
    JoinCons(RenderBelow(layer, p), [RenderBelow(layer, q)], Separator(layer));
  }

  lemma FitsOne(layer: Layer, p: Expr)
    ensures Fits(layer, Chain([p])) <==> FitsBelow(layer, p)
  {
    assert [p][0] == p;
  }

  lemma FitsTwo(layer: Layer, p: Expr, q: Expr)
    ensures Fits(layer, Chain([p, q])) <==> FitsBelow(layer, p) && FitsBelow(layer, q)
  {
    assert [p, q][0] == p && [p, q][1] == q;
  }

  lemma MeaningOne(table: map<string, IR>, layer: Layer, p: Expr)
    ensures Meaning(table, layer, Chain([p])) == MeaningBelow(table, layer, p)
  {
  }

  lemma MeaningTwo(table: map<string, IR>, layer: Layer, p: Expr, q: Expr)
    ensures Meaning(table, layer, Chain([p, q]))
            == Op(Combinator(layer), [MeaningBelow(table, layer, p), MeaningBelow(table, layer, q)])
  {
    var ms := seq(2, k requires 0 <= k < 2 => MeaningBelow(table, layer, [p, q][k]));
    assert ms == [MeaningBelow(table, layer, p), MeaningBelow(table, layer, q)];
  }
}
