/**
 * The parenthesis-extraction pre-pass of the boolean-expression parser and the
 * parser object that runs it before the split parser.
 */
module LogicExtraction {
  import opened Wrappers
  import opened PyStrings
  import opened LogicParser

  // ---------------------------------------------------------------------------
  // the extraction pre-pass
  // ---------------------------------------------------------------------------

  /** What `_extract_parentheses` leaves behind: the rewritten text (or the error
      that ended it) and the side table. */
  datatype Extraction = Extraction(outcome: Result<string, ParseError>, table: map<string, IR>)

  /** One pass of `_extract_parentheses`' body. */
  datatype Step =
    | Flat(text: string)                                   // no `(` left: the text is returned
    | Stuck(error: ParseError)                             // no match, or the group failed to parse
    | Rewritten(next: string, table: map<string, IR>)      // recurse on the rewritten text

  function ExtractStep(text: string, table: map<string, IR>): (s: Step)
    ensures s.Flat? <==> '(' !in text
    ensures s.Flat? ==> s.text == text
    ensures s == Stuck(UnmatchedParenthesis) <==> '(' in text && FirstGroup(text).None?
    ensures s.Rewritten? ==> CountChar(s.next, '(') < CountChar(text, '(')
    ensures s.Rewritten? ==> table.Keys <= s.table.Keys
                             && forall k :: k in s.table && k !in table ==> HasPrefix(k, KeyPrefix)
  {
    StepWith(text, table, FirstGroup(text), inner => ProcExp(table, inner))
  }

  /** The pass once the first group of the text, if any, is known to be `m`, with
      `parse` turning a group's inside into its structure. */
  function StepWith(text: string, table: map<string, IR>, m: Option<Span>,
                    parse: string -> Result<IR, ParseError>): (s: Step)
    requires m.Some? ==> GroupAt(text, m.value.start, m.value.end)
    requires forall inner :: parse(inner).Err? ==> parse(inner).error != UnmatchedParenthesis
    ensures s.Flat? <==> '(' !in text
    ensures s.Flat? ==> s.text == text
    ensures s == Stuck(UnmatchedParenthesis) <==> '(' in text && m.None?
    ensures s.Rewritten? ==> CountChar(s.next, '(') < CountChar(text, '(')
    ensures s.Rewritten? ==> table.Keys <= s.table.Keys
                             && forall k :: k in s.table && k !in table ==> HasPrefix(k, KeyPrefix)
  {
    if '(' !in text then Flat(text)
    else match m
      case None => Stuck(UnmatchedParenthesis)
      case Some(g) => Substitute(text, table, g, parse(text[g.start + 1..g.end - 1]))
  }

  /** The pass on a text whose first group is `g`, given the parse of the group's
      inside: stop with the parse error, or store the parse under the group's key
      and replace every copy of the group in the text by the key. */
  function Substitute(text: string, table: map<string, IR>, g: Span, parsed: Result<IR, ParseError>): (s: Step)
    requires GroupAt(text, g.start, g.end)
    ensures !s.Flat?
    ensures s.Stuck? <==> parsed.Err?
    ensures s.Stuck? ==> s.error == parsed.error
    ensures s.Rewritten? ==> s.table.Keys == table.Keys + {Key(text[g.start + 1..g.end - 1])}
    ensures s.Rewritten? ==> HasPrefix(Key(text[g.start + 1..g.end - 1]), KeyPrefix)
    ensures s.Rewritten? ==> CountChar(s.next, '(') < CountChar(text, '(')
  {
    var group := text[g.start..g.end];
    var key := Key(text[g.start + 1..g.end - 1]);
    ReplaceGroupShrinks(text, g, key);
    match parsed
    case Err(e) => Stuck(e)
    case Ok(ir) => Rewritten(ReplaceAll(text, group, key), table[key := ir])
  }

  /** `Parser._extract_parentheses`, over an explicit side table. */
  function Extract(text: string, table: map<string, IR>): (x: Extraction)
    decreases CountChar(text, '(')
    ensures x.outcome.Ok? ==> '(' !in x.outcome.value
    ensures table.Keys <= x.table.Keys
    ensures forall k :: k in x.table && k !in table ==> HasPrefix(k, KeyPrefix)
    ensures x.outcome == Err(UnmatchedParenthesis) ==> '(' in text
  {
    match ExtractStep(text, table)
    case Flat(t) => Extraction(Ok(t), table)
    case Stuck(e) => Extraction(Err(e), table)
    case Rewritten(next, t) => Extract(next, t)
  }

  /** The pass on a text whose first group is `g` parses the group's inside. */
  lemma ExtractStepAt(text: string, table: map<string, IR>, g: Span)
    requires '(' in text && FirstGroup(text) == Some(g)
    ensures ExtractStep(text, table) == Substitute(text, table, g, ProcExp(table, text[g.start + 1..g.end - 1]))
  {
    var parse := inner => ProcExp(table, inner);
    assert ExtractStep(text, table) == StepWith(text, table, Some(g), parse);
    StepWithGroup(text, table, g, parse);
    assert parse(text[g.start + 1..g.end - 1]) == ProcExp(table, text[g.start + 1..g.end - 1]);
  }

  lemma StepWithGroup(text: string, table: map<string, IR>, g: Span, parse: string -> Result<IR, ParseError>)
    requires '(' in text && GroupAt(text, g.start, g.end)
    requires forall inner :: parse(inner).Err? ==> parse(inner).error != UnmatchedParenthesis
    ensures StepWith(text, table, Some(g), parse) == Substitute(text, table, g, parse(text[g.start + 1..g.end - 1]))
  {
  }

  /** A group whose inside parses is stored under its key, and every copy of the
      group in the text is replaced by the key. */
  lemma SubstituteParsed(text: string, table: map<string, IR>, g: Span, ir: IR)
    requires GroupAt(text, g.start, g.end)
    ensures var key := Key(text[g.start + 1..g.end - 1]);
      Substitute(text, table, g, Ok(ir)) == Rewritten(ReplaceAll(text, text[g.start..g.end], key), table[key := ir])
  {
  }

  /** The pass on a text whose first group parses stores the parse under the group's
      key and replaces every copy of the group by the key. */
  lemma ExtractStepParsed(text: string, table: map<string, IR>, g: Span, ir: IR)
    requires '(' in text && FirstGroup(text) == Some(g)
    requires ProcExp(table, text[g.start + 1..g.end - 1]) == Ok(ir)
    ensures var key := Key(text[g.start + 1..g.end - 1]);
      ExtractStep(text, table) == Rewritten(ReplaceAll(text, text[g.start..g.end], key), table[key := ir])
  {
    ExtractStepAt(text, table, g);
    SubstituteParsed(text, table, g, ir);
  }

  /** After a rewriting step the extraction carries on from the rewritten text. */
  lemma ExtractRewritten(text: string, table: map<string, IR>, next: string, table': map<string, IR>)
    requires ExtractStep(text, table) == Rewritten(next, table')
    ensures Extract(text, table) == Extract(next, table')
  {
  }

  /** `Parser.parse` as a function of its argument alone: the table starts empty. */
  function ParseExpression(exp: string): (r: Result<IR, ParseError>)
    ensures r.Ok? ==> Shaped(Extract(exp, map[]).table, OrLayer, r.value)
    ensures '(' !in exp ==> r == ProcExp(map[], exp)
  {
    var x := Extract(exp, map[]);
    match x.outcome
    case Err(e) => Err(e)
    case Ok(flat) =>
      ProcLayerShaped(x.table, OrLayer, flat);
      ProcExp(x.table, flat)
  }

  // ---------------------------------------------------------------------------
  // the parser object
  // ---------------------------------------------------------------------------

  /** `Parser`: its one field is the side table `_parentheses_exp`. */
  class Parser {
    var parenthesesExp: map<string, IR>

    constructor ()
      ensures parenthesesExp == map[]
    {
      parenthesesExp := map[];
    }

    /** Rewrites the innermost groups of `text` one at a time, storing each group's
        parse in the side table. */
    method ExtractParentheses(text: string) returns (r: Result<string, ParseError>)
      modifies this
      decreases CountChar(text, '(')
      ensures Extraction(r, parenthesesExp) == Extract(text, old(parenthesesExp))
    {
      if '(' !in text {
        return Ok(text);
      }
      var m := FirstGroup(text);
      if m.None? {
        // the `for` over the matches never runs and the method falls through
        return Err(UnmatchedParenthesis);
      }
      var g := m.value;
      var group := text[g.start..g.end];
      var inner := text[g.start + 1..g.end - 1];
      var key := Key(inner);
      var ir := ProcExp(parenthesesExp, inner);
      ExtractStepAt(text, parenthesesExp, g);
      if ir.Err? {
        return Err(ir.error);
      }
      SubstituteParsed(text, parenthesesExp, g, ir.value);
      ghost var table := parenthesesExp;
      parenthesesExp := parenthesesExp[key := ir.value];
      ExtractRewritten(text, table, ReplaceAll(text, group, key), parenthesesExp);
      r := ExtractParentheses(ReplaceAll(text, group, key));
    }

    /** Clears the side table, extracts the groups, then parses the flat text. */
    method Parse(exp: string) returns (r: Result<IR, ParseError>)
      modifies this
      ensures r == ParseExpression(exp)
      ensures parenthesesExp == Extract(exp, map[]).table
    {
      parenthesesExp := map[];
      var flat := ExtractParentheses(exp);
      if flat.Err? {
        return Err(flat.error);
      }
      r := ProcExp(parenthesesExp, flat.value);
    }
  }
}
