/**
 * The boolean-expression parser: a parenthesis-extraction pre-pass that parses
 * each innermost `( ... )` group, stores the result in a side table under a key
 * derived from the group's text and substitutes the key into the text, followed
 * by a four-layer split parser (OR, then AND, then XOR, then NOT and operands).
 */
module LogicParser {
  import opened Wrappers
  import opened PyStrings

  // ---------------------------------------------------------------------------
  // IR
  // ---------------------------------------------------------------------------

  datatype Operator = NOT | XOR | AND | OR

  /** The parser's output: an operator over its operands in textual order, a
      health-check reference, a rule reference, or a literal string. */
  datatype IR =
    | Op(op: Operator, operands: seq<IR>)
    | HealthCheck(healthcheckId: string)
    | RuleRef(ruleId: string)
    | Literal(text: string)

  /** The `ValueError`s of the NOT layer, and the failure that follows when the
      extraction pre-pass finds a `(` but no group it can match. */
  datatype ParseError =
    | UnexpectedPartCount      // more than one `NOT ` in one leaf
    | UnexpectedFirstPart      // text before the only `NOT ` of a leaf
    | UnmatchedParenthesis     // a `(` with no group the pattern matches

  const HcPrefix := "HC:"
  const RulePrefix := "Rule:"
  const OrSep := " OR "
  const AndSep := " AND "
  const XorSep := " XOR "
  const NotSep := "NOT "

  predicate HasPrefix(s: string, prefix: string)
  {
    |prefix| <= |s| && s[..|prefix|] == prefix
  }

  /** A string `strip()` leaves alone. */
  predicate Trimmed(s: string)
  {
    s == [] || (!IsSpace(s[0]) && !IsSpace(s[|s| - 1]))
  }

  // ---------------------------------------------------------------------------
  // tree shape produced by the layers
  // ---------------------------------------------------------------------------

  /** What the operand resolver can return: a stored group, a reference or a literal. */
  predicate IsOperand(table: map<string, IR>, ir: IR)
  {
    ir in table.Values || ir.HealthCheck? || ir.RuleRef? || ir.Literal?
  }

  predicate LeafShaped(table: map<string, IR>, ir: IR)
  {
    || IsOperand(table, ir)
    || (ir.Op? && ir.op == NOT && |ir.operands| == 1 && IsOperand(table, ir.operands[0]))
  }

  /** The three splitting layers of the parser, outermost first: `_proc_exp`
      splits on ` OR `, `_proc_and` on ` AND `, `_proc_xor` on ` XOR `. */
  datatype Layer = OrLayer | AndLayer | XorLayer

  function Separator(layer: Layer): string
  {
    match layer
    case OrLayer => OrSep
    case AndLayer => AndSep
    case XorLayer => XorSep
  }

  function Combinator(layer: Layer): Operator
  {
    match layer
    case OrLayer => OR
    case AndLayer => AND
    case XorLayer => XOR
  }

  /** How many splitting layers lie at or below `layer`. */
  function Depth(layer: Layer): nat
  {
    match layer
    case OrLayer => 3
    case AndLayer => 2
    case XorLayer => 1
  }

  /** What `layer` can return: what the layer below returns, or a flat node of the
      layer's own operator over two or more results of the layer below. */
  predicate Shaped(table: map<string, IR>, layer: Layer, ir: IR)
    decreases Depth(layer), 1
  {
    || ShapedBelow(table, layer, ir)
    || (ir.Op? && ir.op == Combinator(layer) && |ir.operands| >= 2
        && forall k :: 0 <= k < |ir.operands| ==> ShapedBelow(table, layer, ir.operands[k]))
  }

  /** What the layer under `layer` can return. */
  predicate ShapedBelow(table: map<string, IR>, layer: Layer, ir: IR)
    decreases Depth(layer), 0
  {
    match layer
    case OrLayer => Shaped(table, AndLayer, ir)
    case AndLayer => Shaped(table, XorLayer, ir)
    case XorLayer => LeafShaped(table, ir)
  }

  // ---------------------------------------------------------------------------
  // the split parser
  // ---------------------------------------------------------------------------

  /** `Parser._split`: the pieces of `exp` between the occurrences of `delimiter`, each stripped. */
  function SplitStripped(exp: string, delimiter: string): (parts: seq<string>)
    requires |delimiter| > 0
    ensures |parts| == CountOcc(exp, delimiter) + 1
    ensures forall k :: 0 <= k < |parts| ==> Trimmed(parts[k])
    ensures forall k, j :: 0 <= k < |parts| ==> !OccursAt(parts[k], delimiter, j)
  {
    var pieces := Split(exp, delimiter);
    SplitCount(exp, delimiter);
    var parts := seq(|pieces|, k requires 0 <= k < |pieces| => Strip(pieces[k]));
    assert forall k, j :: 0 <= k < |parts| ==> !OccursAt(parts[k], delimiter, j) by {
      forall k, j | 0 <= k < |parts| ensures !OccursAt(parts[k], delimiter, j) {
        SplitPiecesFree(exp, delimiter, k);
        StripKeepsAbsent(pieces[k], delimiter, j);
      }
    }
    parts
  }

  /** With a single occurrence of the delimiter, `_split` gives the stripped text
      before it and the stripped text after it. */
  lemma SplitStrippedTwo(exp: string, d: string)
    requires |d| > 0 && CountOcc(exp, d) == 1
    ensures match FindFrom(exp, d, 0)
            case Some(i) => SplitStripped(exp, d) == [Strip(exp[..i]), Strip(exp[i + |d|..])]
            case None => false
  {
    SplitCount(exp, d);
    var i := FindFrom(exp, d, 0).value;
    assert |Split(exp[i + |d|..], d)| == 1;
    assert FindFrom(exp[i + |d|..], d, 0).None?;
  }

  /** Stripping cannot create an occurrence the unstripped text lacks. */
  lemma StripKeepsAbsent(s: string, d: string, j: int)
    requires forall i :: !OccursAt(s, d, i)
    ensures !OccursAt(Strip(s), d, j)
  {
    var r := Strip(s);
    var i := StripAt(s);
    if 0 <= j && j + |d| <= |r| {
      SliceOfSlice(s, i, i + |r|, j, j + |d|);
      assert !OccursAt(s, d, i + j);
    }
  }

  /** Each element of `parts` through `f`, left to right; the first error is raised. */
  function MapAll<T>(parts: seq<string>, f: string -> Result<T, ParseError>): (r: Result<seq<T>, ParseError>)
    ensures r.Ok? <==> forall k :: 0 <= k < |parts| ==> f(parts[k]).Ok?
    ensures r.Ok? ==> |r.value| == |parts| && forall k :: 0 <= k < |parts| ==> f(parts[k]) == Ok(r.value[k])
    ensures r.Err? ==> exists k :: 0 <= k < |parts| && f(parts[k]) == Err(r.error)
                          && forall j :: 0 <= j < k ==> f(parts[j]).Ok?
  {
    if |parts| == 0 then Ok([])
    else match f(parts[0])
      case Err(e) => Err(e)
      case Ok(v) =>
        match MapAll(parts[1..], f)
        case Err(e) =>
          assert forall j :: 1 <= j < |parts| ==> parts[j] == parts[1..][j - 1];
          Err(e)
        case Ok(vs) =>
          assert forall j :: 1 <= j < |parts| ==> parts[j] == parts[1..][j - 1];
          Ok([v] + vs)
  }

  /** `Parser._gen_operand`: a stored group by its key first, then a health-check
      reference, then a rule reference, and otherwise the text itself as a literal. */
  function ResolveOperand(table: map<string, IR>, exp: string): (r: IR)
    ensures exp in table ==> r == table[exp]
    ensures IsOperand(table, r)
  {
    if exp in table then table[exp]
    else if HasPrefix(exp, HcPrefix) then HealthCheck(exp[|HcPrefix|..])
    else if HasPrefix(exp, RulePrefix) then RuleRef(exp[|RulePrefix|..])
    else Literal(exp)
  }

  /** Away from the table nothing is lost: a reference gives its text back with its
      prefix put in front, a literal is the text itself, and a rule reference or
      a literal is only made from text the earlier prefixes do not claim. */
  lemma ResolveOperandInverse(table: map<string, IR>, exp: string)
    requires exp !in table
    ensures match ResolveOperand(table, exp)
      case HealthCheck(id) => exp == HcPrefix + id
      case RuleRef(id) => exp == RulePrefix + id && !HasPrefix(exp, HcPrefix)
      case Literal(text) => exp == text && !HasPrefix(exp, HcPrefix) && !HasPrefix(exp, RulePrefix)
      case Op(_, _) => false
  {
    if HasPrefix(exp, HcPrefix) {
      assert exp == exp[..|HcPrefix|] + exp[|HcPrefix|..];
    } else if HasPrefix(exp, RulePrefix) {
      assert exp == exp[..|RulePrefix|] + exp[|RulePrefix|..];
    }
  }

  /** `Parser._proc_end_value`: the NOT layer. */
  function ProcEndValue(table: map<string, IR>, exp: string): (r: Result<IR, ParseError>)
    ensures CountOcc(exp, NotSep) == 0 ==> r == Ok(ResolveOperand(table, exp))
    ensures CountOcc(exp, NotSep) >= 2 <==> r == Err(UnexpectedPartCount)
    ensures r.Ok? ==> LeafShaped(table, r.value)
    ensures r.Err? ==> r.error != UnmatchedParenthesis
  {
    var parts := SplitStripped(exp, NotSep);
    if |parts| > 2 then Err(UnexpectedPartCount)
    else if |parts| == 2 then
      if parts[0] != "" then Err(UnexpectedFirstPart)
      else Ok(Op(NOT, [ResolveOperand(table, parts[1])]))
    else
      // `split` never returns an empty list, so the source's final `else` is unreachable
      Ok(ResolveOperand(table, exp))
  }

  /** With one `NOT ` the text before it must be blank, and the result is a NOT node
      over the stripped text after it. */
  lemma ProcEndValueOne(table: map<string, IR>, exp: string)
    requires CountOcc(exp, NotSep) == 1
    ensures match FindFrom(exp, NotSep, 0)
      case Some(i) =>
        ProcEndValue(table, exp)
          == if AllSpace(exp[..i]) then Ok(Op(NOT, [ResolveOperand(table, Strip(exp[i + |NotSep|..]))]))
             else Err(UnexpectedFirstPart)
      case None => false
  {
    SplitStrippedTwo(exp, NotSep);
    var parts := SplitStripped(exp, NotSep);
    var i := FindFrom(exp, NotSep, 0).value;
    assert parts == [Strip(exp[..i]), Strip(exp[i + |NotSep|..])];
  }

  /** `Parser._proc_exp`, `Parser._proc_and` and `Parser._proc_xor`, which differ only
      in their separator and operator: split on the separator; two or more parts make
      one flat node whose operands come from the layer below, part by part, and a
      single part is handed down unchanged. */
  function ProcLayer(table: map<string, IR>, layer: Layer, exp: string): (r: Result<IR, ParseError>)
    decreases Depth(layer), 1
    ensures r.Err? ==> r.error != UnmatchedParenthesis
  {
    var parts := SplitStripped(exp, Separator(layer));
    if |parts| > 1 then
      match MapAll(parts, p => ProcBelow(table, layer, p))
      case Ok(operands) => Ok(Op(Combinator(layer), operands))
      case Err(e) => Err(e)
    else
      ProcBelow(table, layer, parts[0])
  }

  /** The layer under `layer`: `_proc_exp` calls `_proc_and`, `_proc_and` calls
      `_proc_xor` and `_proc_xor` calls `_proc_end_value`. */
  function ProcBelow(table: map<string, IR>, layer: Layer, exp: string): (r: Result<IR, ParseError>)
    decreases Depth(layer), 0
    ensures r.Err? ==> r.error != UnmatchedParenthesis
  {
    match layer
    case OrLayer => ProcLayer(table, AndLayer, exp)
    case AndLayer => ProcLayer(table, XorLayer, exp)
    case XorLayer => ProcEndValue(table, exp)
  }

  /** What a layer returns has the layer's shape: a flat node of its own operator
      over results of the layer below, or a result of the layer below. */
  lemma {:induction false} ProcLayerShaped(table: map<string, IR>, layer: Layer, exp: string)
    decreases Depth(layer), 1
    ensures ProcLayer(table, layer, exp).Ok? ==> Shaped(table, layer, ProcLayer(table, layer, exp).value)
  {
    var parts := SplitStripped(exp, Separator(layer));
    var r := ProcLayer(table, layer, exp);
    if |parts| > 1 {
      var m := MapAll(parts, p => ProcBelow(table, layer, p));
      if m.Ok? {
        assert r == Ok(Op(Combinator(layer), m.value));
        forall k | 0 <= k < |m.value| ensures ShapedBelow(table, layer, m.value[k]) {
          assert ProcBelow(table, layer, parts[k]) == Ok(m.value[k]);
          ProcBelowShaped(table, layer, parts[k]);
        }
      }
    } else {
      ProcBelowShaped(table, layer, parts[0]);
    }
  }

  lemma {:induction false} ProcBelowShaped(table: map<string, IR>, layer: Layer, exp: string)
    decreases Depth(layer), 0
    ensures ProcBelow(table, layer, exp).Ok? ==> ShapedBelow(table, layer, ProcBelow(table, layer, exp).value)
  {
    match layer
    case OrLayer => ProcLayerShaped(table, AndLayer, exp);
    case AndLayer => ProcLayerShaped(table, XorLayer, exp);
    case XorLayer =>
  }

  /** `Parser._proc_exp`: the entry point of the split parser. */
  function ProcExp(table: map<string, IR>, exp: string): Result<IR, ParseError>
  {
    ProcLayer(table, OrLayer, exp)
  }

  /** Without the layer's separator the text is stripped and handed down; with k
      separators a successful result is one flat node of k + 1 operands, the i-th
      being the layer below's result for the i-th stripped part, and the layer fails
      exactly when a part does, with the error of the first part that fails. */
  lemma ProcLayerSplits(table: map<string, IR>, layer: Layer, exp: string)
    ensures CountOcc(exp, Separator(layer)) == 0 ==>
      ProcLayer(table, layer, exp) == ProcBelow(table, layer, Strip(exp))
    ensures var r := ProcLayer(table, layer, exp);
      var parts := SplitStripped(exp, Separator(layer));
      CountOcc(exp, Separator(layer)) > 0 && r.Ok? ==>
        && r.value.Op? && r.value.op == Combinator(layer)
        && |r.value.operands| == CountOcc(exp, Separator(layer)) + 1
        && forall k :: 0 <= k < |parts| ==> ProcBelow(table, layer, parts[k]) == Ok(r.value.operands[k])
    ensures var r := ProcLayer(table, layer, exp);
      var parts := SplitStripped(exp, Separator(layer));
      CountOcc(exp, Separator(layer)) > 0 ==>
        && (r.Ok? <==> forall k :: 0 <= k < |parts| ==> ProcBelow(table, layer, parts[k]).Ok?)
        && (r.Err? ==> exists k :: 0 <= k < |parts| && ProcBelow(table, layer, parts[k]) == Err(r.error)
                                 && forall j :: 0 <= j < k ==> ProcBelow(table, layer, parts[j]).Ok?)
  {
    var d := Separator(layer);
    var parts := SplitStripped(exp, d);
    if |parts| == 1 {
      SplitStrippedOne(exp, d);
    } else {
      var m := MapAll(parts, p => ProcBelow(table, layer, p));
      assert ProcLayer(table, layer, exp) == if m.Ok? then Ok(Op(Combinator(layer), m.value)) else Err(m.error);
    }
  }

  /** Without the delimiter `_split` gives the stripped text alone. */
  lemma SplitStrippedOne(exp: string, d: string)
    requires |d| > 0 && CountOcc(exp, d) == 0
    ensures SplitStripped(exp, d) == [Strip(exp)]
  {
    SplitCount(exp, d);
    assert FindFrom(exp, d, 0).None?;
  }

  // ---------------------------------------------------------------------------
  // group keys
  // ---------------------------------------------------------------------------

  const KeyPrefix := "KEY."

  /** A lower-case hexadecimal digit, as `hexdigest()` writes them. */
  predicate IsHexChar(c: char)
  {
    '0' <= c <= '9' || 'a' <= c <= 'f'
  }

  /** The hexadecimal digit of value `v`. */
  function HexDigit(v: nat): (c: char)
    requires v < 16
    ensures IsHexChar(c)
  {
    if v < 10 then ('0' as int + v) as char else ('a' as int + v - 10) as char
  }

  /** The `width` low hexadecimal digits of `n`, most significant first. */
  function HexWidth(n: nat, width: nat): (r: string)
    ensures |r| == width
    ensures forall k :: 0 <= k < |r| ==> IsHexChar(r[k])
  {
    if width == 0 then [] else HexWidth(n / 16, width - 1) + [HexDigit(n % 16)]
  }

  /** Stands in for the md5 hex digest of the group's text: six hexadecimal digits
      per character (every character code is below 0x110000). */
  function Digest(s: string): (r: string)
    ensures |r| == 6 * |s|
    ensures forall k :: 0 <= k < |r| ==> IsHexChar(r[k])
  {
    if s == [] then [] else HexWidth(s[0] as int, 6) + Digest(s[1..])
  }

  /** The side-table key of a group whose text between the parentheses is `inner`:
      the `KEY.` marker followed by a digest (`KeyShape` says what it is made of). */
  function Key(inner: string): (k: string)
    ensures HasPrefix(k, KeyPrefix)
  {
    var k := KeyPrefix + Digest(inner);
    assert k[..|KeyPrefix|] == KeyPrefix;
    k
  }

  /** A key is the marker and hexadecimal digits: a single word holding no parenthesis. */
  lemma KeyShape(inner: string)
    ensures var k := Key(inner);
      && (forall j :: |KeyPrefix| <= j < |k| ==> IsHexChar(k[j]))
      && IsWord(k) && '(' !in k && ')' !in k
  {
    var h := Digest(inner);
    var k := Key(inner);
    assert forall j :: |KeyPrefix| <= j < |k| ==> k[j] == h[j - |KeyPrefix|];
    assert k[0] == 'K' && k[1] == 'E' && k[2] == 'Y' && k[3] == '.';
  }

  // ---------------------------------------------------------------------------
  // finding a group: the pattern \([^(]+?\)
  // ---------------------------------------------------------------------------

  datatype Span = Span(start: nat, end: nat)

  predicate NoOpenIn(s: string, a: int, b: int)
  {
    forall j :: a <= j < b && 0 <= j < |s| ==> s[j] != '('
  }

  predicate NoCloseIn(s: string, a: int, b: int)
  {
    forall j :: a <= j < b && 0 <= j < |s| ==> s[j] != ')'
  }

  /** The pattern matches `s[p..q]`: a `(`, at least one character other than `(`,
      and the first `)` after that character (the quantifier is lazy). */
  predicate GroupAt(s: string, p: int, q: int)
  {
    && 0 <= p && p + 3 <= q <= |s|
    && s[p] == '(' && s[q - 1] == ')'
    && NoOpenIn(s, p + 1, q - 1)
    && NoCloseIn(s, p + 2, q - 1)
  }

  /** Scans from `k` for the first `)`, giving up at a `(`. */
  function CloseFrom(s: string, k: nat): (r: Option<nat>)
    decreases |s| - k
    ensures r.Some? ==> k < r.value <= |s| && s[r.value - 1] == ')'
                        && NoOpenIn(s, k, r.value - 1) && NoCloseIn(s, k, r.value - 1)
    ensures r.None? ==> forall c :: k <= c < |s| && s[c] == ')' ==> !NoOpenIn(s, k, c)
  {
    if k >= |s| then None
    else if s[k] == ')' then Some(k + 1)
    else if s[k] == '(' then None
    else CloseFrom(s, k + 1)
  }

  function GroupEnd(s: string, p: nat): (r: Option<nat>)
    ensures r.Some? ==> GroupAt(s, p, r.value)
    ensures r.None? ==> forall q :: !GroupAt(s, p, q)
  {
    if p + 1 >= |s| || s[p] != '(' || s[p + 1] == '(' then None
    else
      var r := CloseFrom(s, p + 2);
      assert r.None? ==> forall q :: !GroupAt(s, p, q) by {
        forall q | GroupAt(s, p, q) ensures r.Some? {
          assert NoOpenIn(s, p + 2, q - 1);
        }
      }
      r
  }

  function FirstGroupFrom(s: string, p: nat): (r: Option<Span>)
    decreases |s| - p
    ensures r.Some? ==> p <= r.value.start && GroupAt(s, r.value.start, r.value.end)
    ensures r.Some? ==> forall a, b :: p <= a < r.value.start ==> !GroupAt(s, a, b)
    ensures r.None? ==> forall a, b :: p <= a ==> !GroupAt(s, a, b)
  {
    if p >= |s| then None
    else match GroupEnd(s, p)
      case Some(q) => Some(Span(p, q))
      case None => FirstGroupFrom(s, p + 1)
  }

  /** The first match `re.findall` reports: the leftmost position where the
      pattern matches, with the shortest match there. */
  function FirstGroup(s: string): (r: Option<Span>)
    ensures r.Some? ==> GroupAt(s, r.value.start, r.value.end)
    ensures r.Some? ==> forall a, b :: 0 <= a < r.value.start ==> !GroupAt(s, a, b)
    ensures r.None? ==> forall a, b :: !GroupAt(s, a, b)
  {
    FirstGroupFrom(s, 0)
  }

  /** The lazy quantifier makes the match at a position unique: it ends at the first
      `)` after the group's first character. */
  lemma GroupAtUnique(s: string, p: int, q1: int, q2: int)
    requires GroupAt(s, p, q1) && GroupAt(s, p, q2)
    ensures q1 == q2
  {
  }

  /** The first group is the one at the leftmost position where the pattern matches. */
  lemma FirstGroupIs(s: string, p: nat, q: nat)
    requires GroupAt(s, p, q) && forall a, b :: 0 <= a < p ==> !GroupAt(s, a, b)
    ensures FirstGroup(s) == Some(Span(p, q))
  {
    var r := FirstGroup(s);
    assert r.Some?;
    GroupAtUnique(s, p, q, r.value.end);
  }

  /** A matched group holds exactly one `(`, so rewriting all its occurrences to a key
      (which holds none) leaves fewer `(` behind. */
  lemma ReplaceGroupShrinks(s: string, g: Span, key: string)
    requires GroupAt(s, g.start, g.end) && '(' !in key
    ensures CountChar(ReplaceAll(s, s[g.start..g.end], key), '(') < CountChar(s, '(')
  {
    var group := s[g.start..g.end];
    assert group[0] == '(';
    assert OccursAt(s, group, g.start);
    ReplaceAllDropsChar(s, group, key, '(');
    CountCharIsMultiset(s, '(');
    CountCharIsMultiset(ReplaceAll(s, group, key), '(');
  }
}
