/**
 * Looking an item up in a nested structure of dictionaries and lists by a
 * dot-separated path (`structure_item.py`).
 */
module StructureItem {
  import opened Wrappers
  import opened PyStrings

  // ---------------------------------------------------------------------------
  // values and outcomes
  // ---------------------------------------------------------------------------

  /** A JSON-like Python value. Lists and tuples behave alike here and are both
      `Sequence`; dictionary keys are strings. */
  datatype Value =
    | Dict(entries: map<string, Value>)
    | Sequence(items: seq<Value>)
    | Str(text: string)
    | Int(number: int)
    | Bool(flag: bool)
    | Null

  /** The two exceptions a lookup can end in: `ItemExtractionError` naming the path
      walked so far, and the `TypeError` Python raises when `in` or a subscript is
      applied to a value that does not support it. */
  datatype ItemError = ItemExtractionError(path: string) | TypeError

  /** What `extract_item` does: return a value, or raise. */
  datatype Outcome = Returned(value: Value) | Raised(error: ItemError)

  /** The text of the `ItemExtractionError` raised for `path`. */
  function ErrorMessage(path: string): (m: string)
    ensures |m| == |path| + 22
    ensures m[..6] == "Path '" && m[6..6 + |path|] == path
    ensures m[6 + |path|..] == "' doesn't exists"
  {
    "Path '" + path + "' doesn't exists"
  }

  // ---------------------------------------------------------------------------
  // one path segment
  // ---------------------------------------------------------------------------

  /** `str.isdigit` over the ASCII digits. */
  predicate IsDigits(s: string)
  {
    |s| > 0 && forall i :: 0 <= i < |s| ==> '0' <= s[i] <= '9'
  }

  /** `int(s)` for a string of decimal digits. */
  function DigitsValue(s: string): (n: nat)
    requires forall i :: 0 <= i < |s| ==> '0' <= s[i] <= '9'
    ensures |s| > 0 ==> n == DigitsValue(s[..|s| - 1]) * 10 + (s[|s| - 1] - '0') as int
    ensures n < Pow10(|s|)
  {
    if |s| == 0 then 0 else DigitsValue(s[..|s| - 1]) * 10 + (s[|s| - 1] - '0') as int
  }

  /** `int()` ignores leading zeros. */
  lemma {:induction false} LeadingZero(s: string)
    requires forall i :: 0 <= i < |s| ==> '0' <= s[i] <= '9'
    ensures DigitsValue("0" + s) == DigitsValue(s)
  {
    if |s| > 0 {
      var t := "0" + s;
      assert t[..|t| - 1] == "0" + s[..|s| - 1];
      LeadingZero(s[..|s| - 1]);
    }
  }

  function Pow10(k: nat): (p: nat)
    ensures p >= 1
  {
    if k == 0 then 1 else 10 * Pow10(k - 1)
  }

  /** `sub in s` for strings: `sub` occurs somewhere in `s`. */
  predicate Contains(s: string, sub: string)
  {
    FindFrom(s, sub, 0).Some?
  }

  /** `key in v` for a string `key`: `None` where Python raises `TypeError`. */
  function Membership(v: Value, key: string): (r: Option<bool>)
    ensures r.None? <==> v.Int? || v.Bool? || v.Null?
    ensures v.Dict? ==> r == Some(key in v.entries)
    ensures v.Str? ==> (r == Some(true) <==> exists i :: OccursAt(v.text, key, i))
  {
    match v
    case Dict(m) => Some(key in m)
    case Sequence(items) => Some(Str(key) in items)
    case Str(t) => Some(Contains(t, key))
    case _ => None
  }

  /** `v[key]` for a string `key`: `None` where Python raises `TypeError`. */
  function Subscript(v: Value, key: string): (r: Option<Value>)
    requires Membership(v, key) == Some(true)
    ensures r.Some? <==> v.Dict?
    ensures r.Some? ==> r.value < v
  {
    match v
    case Dict(m) => Some(m[key])
    case _ => None
  }

  /** How one segment applied to the current value ends. */
  datatype Step = Next(value: Value) | NoSuch | Fault

  /** One pass of the loop body: a digit segment indexes a list or tuple and
      nothing else; any other segment is looked up with `in` and then subscripted. */
  function StepInto(v: Value, seg: string): (r: Step)
    ensures r.Next? ==> r.value < v
  {
    if IsDigits(seg) then
      var index := DigitsValue(seg);
      if !v.Sequence? || index > |v.items| - 1 then NoSuch else Next(v.items[index])
    else
      match Membership(v, seg)
      case None => Fault
      case Some(false) => NoSuch
      case Some(true) =>
        match Subscript(v, seg)
        case None => Fault
        case Some(u) => Next(u)
  }

  /** A digit segment only ever indexes a list or tuple, in bounds, and never raises;
      any other segment finds a dictionary entry exactly when the key is there, and
      never finds anything in a list or tuple. */
  lemma StepRules(v: Value, seg: string)
    ensures IsDigits(seg) ==> !StepInto(v, seg).Fault?
    ensures IsDigits(seg) && !v.Sequence? ==> StepInto(v, seg) == NoSuch
    ensures IsDigits(seg) && v.Sequence? ==>
      (StepInto(v, seg).Next? <==> DigitsValue(seg) < |v.items|) &&
      (StepInto(v, seg).Next? ==> StepInto(v, seg).value == v.items[DigitsValue(seg)])
    ensures !IsDigits(seg) && v.Dict? ==>
      (StepInto(v, seg).Next? <==> seg in v.entries) && (StepInto(v, seg) == NoSuch <==> seg !in v.entries) &&
      (StepInto(v, seg).Next? ==> StepInto(v, seg).value == v.entries[seg])
    ensures !IsDigits(seg) && v.Sequence? ==> !StepInto(v, seg).Next?
    ensures !IsDigits(seg) && (v.Int? || v.Bool? || v.Null?) ==> StepInto(v, seg) == Fault
  {
  }

  // ---------------------------------------------------------------------------
  // the whole path
  // ---------------------------------------------------------------------------

  /** Where a walk along some segments ends: at a value, or at the index of the
      segment that was missing or raised `TypeError`. */
  datatype Walked = Reached(value: Value) | Missing(at: nat) | Faulted(at: nat)

  /** The walk as the loop performs it: the first segments, then the last one. */
  function Walk(v: Value, segs: seq<string>): (w: Walked)
    decreases |segs|
    ensures !w.Reached? ==> w.at < |segs|
  {
    if |segs| == 0 then Reached(v)
    else
      var last := |segs| - 1;
      match Walk(v, segs[..last])
      case Reached(u) =>
        (match StepInto(u, segs[last])
         case Next(x) => Reached(x)
         case NoSuch => Missing(last)
         case Fault => Faulted(last))
      case stopped => stopped
  }

  /** A walk's failure index counted `n` segments further along. */
  function Shifted(w: Walked, n: nat): Walked
  {
    match w
    case Reached(_) => w
    case Missing(k) => Missing(k + n)
    case Faulted(k) => Faulted(k + n)
  }

  /** The nested lookup `v[s0][s1]...`, applied from the outside in: an independent
      definition of the walk. */
  function Descend(v: Value, segs: seq<string>): (w: Walked)
    decreases |segs|
  {
    if |segs| == 0 then Reached(v)
    else
      match StepInto(v, segs[0])
      case Next(u) => Shifted(Descend(u, segs[1..]), 1)
      case NoSuch => Missing(0)
      case Fault => Faulted(0)
  }

  /** Walking `p + q` walks `p`, then `q` from where `p` ended. */
  lemma {:induction false} WalkAppend(v: Value, p: seq<string>, q: seq<string>)
    ensures Walk(v, p + q) == match Walk(v, p)
      case Reached(u) => Shifted(Walk(u, q), |p|)
      case stopped => stopped
    decreases |q|
  {
    if |q| == 0 {
      assert p + q == p;
    } else {
      var last := |q| - 1;
      assert (p + q)[..|p + q| - 1] == p + q[..last];
      assert (p + q)[|p + q| - 1] == q[last];
      WalkAppend(v, p, q[..last]);
    }
  }

  /** The loop's walk is the nested lookup. */
  lemma {:induction false} WalkDescends(v: Value, segs: seq<string>)
    ensures Walk(v, segs) == Descend(v, segs)
    decreases |segs|
  {
    if |segs| > 0 {
      assert segs == [segs[0]] + segs[1..];
      WalkAppend(v, [segs[0]], segs[1..]);
      assert [segs[0]][..0] == [];
      match StepInto(v, segs[0])
      case Next(u) => WalkDescends(u, segs[1..]);
      case NoSuch =>
      case Fault =>
    }
  }

  /** A walk that stopped on the first `k` segments stops there on all of them. */
  lemma StoppedStays(v: Value, segs: seq<string>, k: nat)
    requires k <= |segs| && !Walk(v, segs[..k]).Reached?
    ensures Walk(v, segs) == Walk(v, segs[..k])
  {
    assert segs == segs[..k] + segs[k..];
    WalkAppend(v, segs[..k], segs[k..]);
  }

  lemma TakeOneMore(segs: seq<string>, i: nat)
    requires i < |segs|
    ensures segs[..i] + [segs[i]] == segs[..i + 1]
  {
  }

  /** One more segment: where the walk of the first `i + 1` segments ends, and the
      whole walk when segment `i` fails. */
  lemma WalkNext(v: Value, segs: seq<string>, i: nat, u: Value)
    requires i < |segs| && Walk(v, segs[..i]) == Reached(u)
    ensures StepInto(u, segs[i]).Next? ==> Walk(v, segs[..i + 1]) == Reached(StepInto(u, segs[i]).value)
    ensures StepInto(u, segs[i]) == NoSuch ==> Walk(v, segs) == Missing(i)
    ensures StepInto(u, segs[i]) == Fault ==> Walk(v, segs) == Faulted(i)
  {
    assert segs[..i + 1][..i] == segs[..i];
    if !StepInto(u, segs[i]).Next? {
      StoppedStays(v, segs, i + 1);
    }
  }

  /** The walk fails at segment `k` exactly when the first `k` segments lead to a
      value on which segment `k` fails; the failure is then reported as such. */
  lemma {:induction false} MissingAt(v: Value, segs: seq<string>, k: nat)
    requires k < |segs|
    ensures Walk(v, segs) == Missing(k) <==>
            Walk(v, segs[..k]).Reached? && StepInto(Walk(v, segs[..k]).value, segs[k]) == NoSuch
    ensures Walk(v, segs) == Faulted(k) <==>
            Walk(v, segs[..k]).Reached? && StepInto(Walk(v, segs[..k]).value, segs[k]) == Fault
    decreases |segs|
  {
    var last := |segs| - 1;
    if k < last {
      MissingAt(v, segs[..last], k);
      StopsBeforeLast(v, segs, k);
      assert segs[..last][..k] == segs[..k];
      assert segs[..last][k] == segs[k];
    } else {
      StopsAtLast(v, segs);
    }
  }

  /** A walk stops at a segment before the last one exactly when the walk without
      the last segment stops there. */
  lemma StopsBeforeLast(v: Value, segs: seq<string>, k: nat)
    requires k + 1 < |segs|
    ensures Walk(v, segs) == Missing(k) <==> Walk(v, segs[..|segs| - 1]) == Missing(k)
    ensures Walk(v, segs) == Faulted(k) <==> Walk(v, segs[..|segs| - 1]) == Faulted(k)
  {
    LastStep(v, segs);
  }

  /** A walk stops at its last segment exactly when the walk up to it reached a value
      on which the last segment fails. */
  lemma StopsAtLast(v: Value, segs: seq<string>)
    requires |segs| > 0
    ensures var k := |segs| - 1;
      Walk(v, segs) == Missing(k) <==>
        Walk(v, segs[..k]).Reached? && StepInto(Walk(v, segs[..k]).value, segs[k]) == NoSuch
    ensures var k := |segs| - 1;
      Walk(v, segs) == Faulted(k) <==>
        Walk(v, segs[..k]).Reached? && StepInto(Walk(v, segs[..k]).value, segs[k]) == Fault
  {
    var k := |segs| - 1;
    LastStep(v, segs);
    var w := Walk(v, segs[..k]);
    if w.Reached? {
      WalkNext(v, segs, k, w.value);
      assert segs[..k + 1] == segs;
    }
  }

  /** The last segment either extends a walk that reached a value, or the walk had
      already stopped and stays stopped. */
  lemma LastStep(v: Value, segs: seq<string>)
    requires |segs| > 0
    ensures var w := Walk(v, segs[..|segs| - 1]);
      (!w.Reached? ==> Walk(v, segs) == w) &&
      (w.Reached? ==> Walk(v, segs).Reached? || Walk(v, segs).at == |segs| - 1)
  {
  }

  // ---------------------------------------------------------------------------
  // extract_item and ensure_item_exists
  // ---------------------------------------------------------------------------

  /** `incorrect_path()`: raise naming the segments checked so far, or return `None`. */
  function IncorrectPath(checkedKeys: seq<string>, exc: bool): (r: Outcome)
    ensures exc ==> r.Raised? && r.error.ItemExtractionError?
    ensures !exc ==> r == Returned(Null)
  {
    if !exc then Returned(Null)
    else Raised(ItemExtractionError(Join(checkedKeys, ".")))
  }

  /** `extract_item(obj, path, exc)` as a function of its arguments. */
  function ExtractItemSpec(obj: Value, path: string, exc: bool): (r: Outcome)
    ensures r == Raised(TypeError) <==> Walk(obj, Split(path, ".")).Faulted?
    ensures exc ==> (r.Returned? <==> Walk(obj, Split(path, ".")).Reached?)
    ensures !exc ==> r.Returned? || r == Raised(TypeError)
    ensures Walk(obj, Split(path, ".")).Reached? ==> r == Returned(Walk(obj, Split(path, ".")).value)
    ensures !exc && Walk(obj, Split(path, ".")).Missing? ==> r == Returned(Null)
  {
    var parts := Split(path, ".");
    match Walk(obj, parts)
    case Reached(v) => Returned(v)
    case Missing(k) => IncorrectPath(parts[..k + 1], exc)
    case Faulted(_) => Raised(TypeError)
  }

  /** The path an `ItemExtractionError` names is the given path cut right after
      the segment that was missing. */
  lemma MissingNamesPrefix(obj: Value, path: string)
    requires Walk(obj, Split(path, ".")).Missing?
    ensures var p := ExtractItemSpec(obj, path, true).error.path;
      var k := Walk(obj, Split(path, ".")).at;
      p <= path && (|p| == |path| || path[|p|] == '.') && Split(p, ".") == Split(path, ".")[..k + 1]
  {
    var parts := Split(path, ".");
    var k := Walk(obj, parts).at;
    var p := Join(parts[..k + 1], ".");
    JoinSplit(path, ".");
    if k + 1 < |parts| {
      assert parts == parts[..k + 1] + parts[k + 1..];
      JoinAppend(parts[..k + 1], parts[k + 1..], ".");
      assert path == p + "." + Join(parts[k + 1..], ".");
      assert path[|p|] == '.';
    } else {
      assert parts[..k + 1] == parts;
    }
    var checked := parts[..k + 1];
    forall j | 0 <= j < |checked|
      ensures SplitsCleanly(checked[j], ".")
    {
      SplitPiecesFree(path, ".", j);
      DotFree(parts[j]);
    }
    SplitJoin(checked, ".");
  }

  /** A piece the separator never occurs in splits cleanly. */
  lemma DotFree(p: string)
    requires forall j :: !OccursAt(p, ".", j)
    ensures SplitsCleanly(p, ".")
  {
    forall i | 0 <= i < |p| ensures !OccursAt(p + ".", ".", i) {
      assert !OccursAt(p, ".", i);
      assert (p + ".")[i..i + 1] == p[i..i + 1];
    }
  }

  /** `ensure_item_exists(obj, path)`: `True` when the lookup succeeds, `False` when
      it raises `ItemExtractionError`; a `TypeError` is not caught. */
  function ItemExists(obj: Value, path: string): (r: Result<bool, ItemError>)
    ensures r == Ok(true) <==> Walk(obj, Split(path, ".")).Reached?
    ensures r == Ok(false) <==> Walk(obj, Split(path, ".")).Missing?
    ensures r.Err? <==> r == Err(TypeError)
  {
    match ExtractItemSpec(obj, path, true)
    case Returned(_) => Ok(true)
    case Raised(ItemExtractionError(_)) => Ok(false)
    case Raised(TypeError) => Err(TypeError)
  }

  /** The body of `extract_item`'s loop for one segment: a digit segment indexes a
      list or tuple in bounds; any other segment is tested with `in` and then
      subscripted. */
  method StepSegment(tmp: Value, pathPart: string) returns (r: Step)
    ensures r == StepInto(tmp, pathPart)
  {
    if IsDigits(pathPart) {
      var seqIndex := DigitsValue(pathPart);
      if !tmp.Sequence? || seqIndex > |tmp.items| - 1 {
        return NoSuch;
      }
      return Next(tmp.items[seqIndex]);
    }
    var found := Membership(tmp, pathPart);
    if found.None? {
      return Fault;
    }
    if !found.value {
      return NoSuch;
    }
    var item := Subscript(tmp, pathPart);
    if item.None? {
      return Fault;
    }
    return Next(item.value);
  }

  /** `extract_item`: walks the segments of the path one at a time. */
  method ExtractItem(obj: Value, path: string, exc: bool) returns (r: Outcome)
    ensures r == ExtractItemSpec(obj, path, exc)
  {
    var tmp := obj;  // the shallow copy: values are never updated in place here
    var checkedKeys: seq<string> := [];
    var parts := Split(path, ".");
    var i := 0;
    while i < |parts|
      invariant 0 <= i <= |parts|
      invariant checkedKeys == parts[..i]
      invariant Walk(obj, parts[..i]) == Reached(tmp)
    {
      var pathPart := parts[i];
      checkedKeys := checkedKeys + [pathPart];
      TakeOneMore(parts, i);
      WalkNext(obj, parts, i, tmp);
      var step := StepSegment(tmp, pathPart);
      if step.Fault? {
        assert Walk(obj, parts) == Faulted(i);
        return Raised(TypeError);
      }
      if step.NoSuch? {
        assert Walk(obj, parts) == Missing(i);
        assert checkedKeys == parts[..i + 1];
        assert ExtractItemSpec(obj, path, exc) == IncorrectPath(parts[..i + 1], exc);
        return IncorrectPath(checkedKeys, exc);
      }
      tmp := step.value;
      i := i + 1;
    }
    assert parts[..i] == parts;
    return Returned(tmp);
  }

  /** `ensure_item_exists`: runs the lookup with `exc=True` and catches
      `ItemExtractionError` only. */
  method EnsureItemExists(obj: Value, path: string) returns (r: Result<bool, ItemError>)
    ensures r == ItemExists(obj, path)
  {
    var outcome := ExtractItem(obj, path, true);
    match outcome
    case Returned(_) => r := Ok(true);
    case Raised(e) => r := if e.ItemExtractionError? then Ok(false) else Err(e);
  }

  // ---------------------------------------------------------------------------
  // the documented examples
  // ---------------------------------------------------------------------------

  /** A segment without a dot splits cleanly on dots. */
  lemma NoDot(p: string)
    requires '.' !in p
    ensures SplitsCleanly(p, ".")
  {
    forall i | 0 <= i < |p| ensures !OccursAt(p + ".", ".", i) {
      MismatchAt(p + ".", ".", i, 0);
    }
  }

  /** Dot-free segments joined by dots split back into themselves. */
  lemma SplitPath(parts: seq<string>)
    requires |parts| >= 1 && forall k :: 0 <= k < |parts| ==> '.' !in parts[k]
    ensures Split(Join(parts, "."), ".") == parts
  {
    forall k | 0 <= k < |parts| ensures SplitsCleanly(parts[k], ".") {
      NoDot(parts[k]);
    }
    SplitJoin(parts, ".");
  }

  /** A segment starting with a letter is looked up by key. */
  lemma NotDigits(s: string)
    requires |s| > 0 && s[0] > '9'
    ensures !IsDigits(s)
  {
  }

  /** `{"a": {"b": [1]}}` */
  function Nested(): Value
  {
    Dict(map["a" := Dict(map["b" := Sequence([Int(1)])])])
  }

  /** `extract_item({"a": {"b": [1]}}, 'a')` is `{'b': [1]}`. */
  lemma ExtractOneSegment()
    ensures ExtractItemSpec(Nested(), "a", true) == Returned(Dict(map["b" := Sequence([Int(1)])]))
  {
    SplitPath(["a"]);
    assert !IsDigits("a");
  }

  /** `extract_item({"a": {"b": [1]}}, 'a.b')` is `[1]`. */
  lemma ExtractTwoSegments()
    ensures ExtractItemSpec(Nested(), "a.b", true) == Returned(Sequence([Int(1)]))
  {
    SplitPath(["a", "b"]);
    assert Join(["a", "b"], ".") == "a.b";
    NestedAB();
  }

  /** The first two steps into `{"a": {"b": [1]}}`. */
  lemma NestedAB()
    ensures Walk(Nested(), ["a"]) == Reached(Dict(map["b" := Sequence([Int(1)])]))
    ensures Walk(Nested(), ["a", "b"]) == Reached(Sequence([Int(1)]))
  {
    var inner := Dict(map["b" := Sequence([Int(1)])]);
    NotDigits("a");
    NotDigits("b");
    assert StepInto(Nested(), "a") == Next(inner);
    assert StepInto(inner, "b") == Next(Sequence([Int(1)]));
    assert ["a", "b"][..1] == ["a"];
    assert ["a"][..0] == [];
  }

  /** `extract_item({"a": {"b": [1]}}, 'a.b.0')` is `1`. */
  lemma ExtractThreeSegments()
    ensures ExtractItemSpec(Nested(), "a.b.0", true) == Returned(Int(1))
  {
    var segs := ["a", "b", "0"];
    ThreeSegmentsWalk();
    PathReached(Nested(), segs, Int(1));
    assert Join(segs, ".") == "a.b.0";
  }

  lemma ThreeSegmentsWalk()
    ensures Walk(Nested(), ["a", "b", "0"]) == Reached(Int(1))
  {
    var segs := ["a", "b", "0"];
    NestedAB();
    assert segs[..2] == ["a", "b"];
    assert IsDigits("0") && DigitsValue("0") == 0;
    WalkNext(Nested(), segs, 2, Sequence([Int(1)]));
    assert segs[..3] == segs;
  }

  /** A path of dot-free segments that the walk follows to the end returns the value
      reached. */
  lemma PathReached(obj: Value, segs: seq<string>, v: Value)
    requires |segs| >= 1 && forall k :: 0 <= k < |segs| ==> '.' !in segs[k]
    requires Walk(obj, segs) == Reached(v)
    ensures ExtractItemSpec(obj, Join(segs, "."), true) == Returned(v)
  {
    SplitPath(segs);
  }

  /** `extract_item([[True]], '0.0')` is `True`. */
  lemma ExtractIndices()
    ensures ExtractItemSpec(Sequence([Sequence([Bool(true)])]), "0.0", true) == Returned(Bool(true))
  {
    SplitPath(["0", "0"]);
    assert Join(["0", "0"], ".") == "0.0";
    assert IsDigits("0") && DigitsValue("0") == 0;
    assert ["0", "0"][..1] == ["0"];
  }

  /** A digit segment does not look a dictionary up, even under a key it has. */
  lemma DigitOnDict()
    ensures ExtractItemSpec(Dict(map["0" := Int(1)]), "0", true) == Raised(ItemExtractionError("0"))
  {
    SplitPath(["0"]);
    assert IsDigits("0");
  }

  /** With `exc=False` a missing segment returns `None`. */
  lemma MissingQuiet()
    ensures ExtractItemSpec(Nested(), "a.c", false) == Returned(Null)
  {
    SplitPath(["a", "c"]);
    assert Join(["a", "c"], ".") == "a.c";
    NestedAB();
    assert !IsDigits("c");
    assert StepInto(Dict(map["b" := Sequence([Int(1)])]), "c") == NoSuch;
    assert ["a", "c"][..1] == ["a"];
  }

  /** `ensure_item_exists({'a': {'b': 1}}, 'a.b')` is `True`. */
  lemma ExistsExample()
    ensures ItemExists(Dict(map["a" := Dict(map["b" := Int(1)])]), "a.b") == Ok(true)
  {
    var inner := Dict(map["b" := Int(1)]);
    var obj := Dict(map["a" := inner]);
    NotDigits("a");
    NotDigits("b");
    assert StepInto(obj, "a") == Next(inner);
    assert StepInto(inner, "b") == Next(Int(1));
    assert ["a", "b"][..1] == ["a"] && ["a"][..0] == [];
    assert Walk(obj, ["a"]) == Reached(inner);
    assert Walk(obj, ["a", "b"]) == Reached(Int(1));
    PathReached(obj, ["a", "b"], Int(1));
    assert Join(["a", "b"], ".") == "a.b";
  }

  /** `{'a': {'b': [1, 2]}}` */
  function NestedPair(): Value
  {
    Dict(map["a" := Dict(map["b" := Sequence([Int(1), Int(2)])])])
  }

  /** The first two steps into `{'a': {'b': [1, 2]}}`. */
  lemma NestedPairAB()
    ensures Walk(NestedPair(), ["a", "b"]) == Reached(Sequence([Int(1), Int(2)]))
  {
    var inner := Dict(map["b" := Sequence([Int(1), Int(2)])]);
    NotDigits("a");
    NotDigits("b");
    assert StepInto(NestedPair(), "a") == Next(inner);
    assert StepInto(inner, "b") == Next(Sequence([Int(1), Int(2)]));
    assert ["a", "b"][..1] == ["a"];
    assert ["a"][..0] == [];
  }

  /** `ensure_item_exists({'a': {'b': [1, 2]}}, 'a.b.2')` is `False`. */
  lemma NotExistsExample()
    ensures ItemExists(NestedPair(), "a.b.2") == Ok(false)
  {
    var segs := ["a", "b", "2"];
    SplitPath(segs);
    assert Join(segs, ".") == "a.b.2";
    NestedPairAB();
    assert segs[..2] == ["a", "b"];
    assert IsDigits("2") && DigitsValue("2") == 2;
    WalkNext(NestedPair(), segs, 2, Sequence([Int(1), Int(2)]));
  }
}
