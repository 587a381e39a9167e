/**
 * The handful of Python `str` operations the parser is built from:
 * `strip()`, `find`, `split(sep)`, `count(sub)`, `sep.join(parts)` and
 * `replace(pat, rep)`, each stated over `seq<char>`.
 */
module PyStrings {
  import opened Wrappers

  /** The characters `str.isspace()` accepts, i.e. those `str.strip()` removes. */
  predicate IsSpace(c: char)
  {
    || c == ' ' || c == '\t' || c == '\n' || c == '\r'
    || c == '\U{000B}' || c == '\U{000C}'
    || ('\U{001C}' <= c <= '\U{001F}')
    || c == '\U{0085}' || c == '\U{00A0}' || c == '\U{1680}'
    || ('\U{2000}' <= c <= '\U{200A}')
    || c == '\U{2028}' || c == '\U{2029}' || c == '\U{202F}'
    || c == '\U{205F}' || c == '\U{3000}'
  }

  predicate AllSpace(s: string)
  {
    forall k :: 0 <= k < |s| ==> IsSpace(s[k])
  }

  /** A non-empty run of characters none of which is whitespace. */
  predicate IsWord(w: string)
  {
    |w| > 0 && forall k :: 0 <= k < |w| ==> !IsSpace(w[k])
  }

  function LeadingSpaces(s: string): (n: nat)
    ensures n <= |s|
    ensures forall k :: 0 <= k < n ==> IsSpace(s[k])
    ensures n < |s| ==> !IsSpace(s[n])
  {
    if |s| == 0 || !IsSpace(s[0]) then 0 else 1 + LeadingSpaces(s[1..])
  }

  function TrailingSpaces(s: string): (n: nat)
    ensures n <= |s|
    ensures forall k :: |s| - n <= k < |s| ==> IsSpace(s[k])
    ensures n < |s| ==> !IsSpace(s[|s| - n - 1])
  {
    if |s| == 0 || !IsSpace(s[|s| - 1]) then 0 else 1 + TrailingSpaces(s[..|s| - 1])
  }

  /** `s.strip()`: the longest slice of `s` that neither starts nor ends with
      whitespace (`StripAt` says where it sits and that what is cut off is whitespace). */
  function Strip(s: string): (r: string)
    ensures |r| <= |s|
    ensures r == [] <==> AllSpace(s)
    ensures r != [] ==> !IsSpace(r[0]) && !IsSpace(r[|r| - 1])
  {
    var a := LeadingSpaces(s);
    var rest := s[a..];
    var b := TrailingSpaces(rest);
    assert a == |s| ==> rest == [];
    rest[..|rest| - b]
  }

  /** Where `strip()` cuts: the stripped text is the slice of `s` from the returned
      index, and everything cut off on either side is whitespace. */
  lemma StripAt(s: string) returns (i: nat)
    ensures i + |Strip(s)| <= |s| && Strip(s) == s[i..i + |Strip(s)|]
    ensures AllSpace(s[..i]) && AllSpace(s[i + |Strip(s)|..])
  {
    i := LeadingSpaces(s);
    var rest := s[i..];
    var b := TrailingSpaces(rest);
    var r := Strip(s);
    assert r == rest[..|rest| - b];
    assert r == s[i..i + |r|];
    var head := s[..i];
    assert AllSpace(head) by {
      forall k | 0 <= k < i ensures IsSpace(head[k]) { assert head[k] == s[k]; }
    }
    var tail := rest[|rest| - b..];
    assert s[i + |r|..] == tail;
    assert AllSpace(tail) by {
      forall k | 0 <= k < b ensures IsSpace(tail[k]) { assert tail[k] == rest[|rest| - b + k]; }
    }
  }

  /** A string that starts and ends with a non-space character is its own `strip()`. */
  lemma StripKeeps(s: string)
    requires |s| > 0 && !IsSpace(s[0]) && !IsSpace(s[|s| - 1])
    ensures Strip(s) == s
  {
    var r := Strip(s);
    assert LeadingSpaces(s) == 0 && s[0..] == s;
    assert TrailingSpaces(s) == 0;
  }

  /** `d` occurs in `s` starting at index `i`. */
  predicate OccursAt(s: string, d: string, i: int)
  {
    0 <= i && i + |d| <= |s| && s[i..i + |d|] == d
  }

  /** One mismatching character rules an occurrence out. */
  lemma MismatchAt(s: string, d: string, i: int, j: nat)
    requires j < |d| && 0 <= i && i + j < |s| && s[i + j] != d[j]
    ensures !OccursAt(s, d, i)
  {
    if i + |d| <= |s| {
      assert s[i..i + |d|][j] == s[i + j];
    }
  }

  /** `s.find(d, i)`: the leftmost occurrence of `d` at or after index `i`. */
  function FindFrom(s: string, d: string, i: nat): (r: Option<nat>)
    decreases |s| - i
    ensures r.Some? ==> i <= r.value && OccursAt(s, d, r.value)
    ensures r.Some? ==> forall j :: i <= j < r.value ==> !OccursAt(s, d, j)
    ensures r.None? ==> forall j :: i <= j ==> !OccursAt(s, d, j)
  {
    if i + |d| > |s| then None
    else if s[i..i + |d|] == d then Some(i)
    else FindFrom(s, d, i + 1)
  }

  /** Every occurrence at or after `i` is found, and no earlier one. */
  lemma FindFromIs(s: string, d: string, i: nat, k: nat)
    requires i <= k && OccursAt(s, d, k)
    requires forall j :: i <= j < k ==> !OccursAt(s, d, j)
    ensures FindFrom(s, d, i) == Some(k)
  {
  }

  /** `s.split(d)` for a non-empty separator: the pieces between the
      non-overlapping occurrences of `d`, scanned left to right. */
  function Split(s: string, d: string): (parts: seq<string>)
    requires |d| > 0
    decreases |s|
    ensures |parts| >= 1
  {
    match FindFrom(s, d, 0)
    case None => [s]
    case Some(i) => [s[..i]] + Split(s[i + |d|..], d)
  }

  /** `d.join(parts)`, for any kind of sequence. */
  function Join<T>(parts: seq<seq<T>>, d: seq<T>): seq<T>
  {
    if |parts| == 0 then []
    else if |parts| == 1 then parts[0]
    else parts[0] + d + Join(parts[1..], d)
  }

  /** `s.count(d)`: occurrences of `d` counted left to right without overlap,
      scanning from index `i` one character at a time. */
  function CountFrom(s: string, d: string, i: nat): nat
    requires |d| > 0
    decreases |s| - i
  {
    if i + |d| > |s| then 0
    else if OccursAt(s, d, i) then 1 + CountFrom(s, d, i + |d|)
    else CountFrom(s, d, i + 1)
  }

  function CountOcc(s: string, d: string): nat
    requires |d| > 0
  {
    CountFrom(s, d, 0)
  }

  /** `s.replace(pat, rep)` replaces every non-overlapping occurrence. */
  function ReplaceAll(s: string, pat: string, rep: string): string
    requires |pat| > 0
  {
    Join(Split(s, pat), rep)
  }

  lemma JoinCons<T>(p: seq<T>, tail: seq<seq<T>>, d: seq<T>)
    requires |tail| >= 1
    ensures Join([p] + tail, d) == p + d + Join(tail, d)
  {
    assert ([p] + tail)[1..] == tail;
  }

  /** Text around an occurrence: what precedes it, the separator, what follows. */
  lemma CutAt(s: string, d: string, i: nat)
    requires OccursAt(s, d, i)
    ensures s == s[..i] + d + s[i + |d|..]
  {
    assert s == s[..i] + s[i..i + |d|] + s[i + |d|..];
  }

  // ---------------------------------------------------------------------------
  // split and join are inverse
  // ---------------------------------------------------------------------------

  /** Joining the pieces of a split with the same separator gives the text back. */
  lemma {:induction false} JoinSplit(s: string, d: string)
    requires |d| > 0
    ensures Join(Split(s, d), d) == s
    decreases |s|
  {
    var f := FindFrom(s, d, 0);
    if f.Some? {
      var i := f.value;
      var rest := s[i + |d|..];
      JoinSplit(rest, d);
      JoinCons(s[..i], Split(rest, d), d);
      CutAt(s, d, i);
    }
  }

  /** Text before the first occurrence holds none. */
  lemma BeforeFirst(s: string, d: string, i: nat)
    requires |d| > 0 && i <= |s| && forall j :: 0 <= j < i ==> !OccursAt(s, d, j)
    ensures forall j :: !OccursAt(s[..i], d, j)
  {
    forall j | 0 <= j && j + |d| <= i ensures !OccursAt(s[..i], d, j) {
      assert s[..i][j..j + |d|] == s[j..j + |d|];
      assert !OccursAt(s, d, j);
    }
  }

  /** No piece of a split contains the separator. */
  lemma {:induction false} SplitPiecesFree(s: string, d: string, k: nat)
    requires |d| > 0 && k < |Split(s, d)|
    ensures forall j :: !OccursAt(Split(s, d)[k], d, j)
    decreases |s|
  {
    match FindFrom(s, d, 0)
    case None =>
    case Some(i) =>
      if k == 0 {
        BeforeFirst(s, d, i);
      } else {
        SplitPiecesFree(s[i + |d|..], d, k - 1);
        assert Split(s, d)[k] == Split(s[i + |d|..], d)[k - 1];
      }
  }

  /** `p` followed by the separator contains no occurrence of it that starts inside `p`:
      the separator placed after `p` is the first one a scan finds. */
  predicate SplitsCleanly(p: string, d: string)
  {
    forall i :: 0 <= i < |p| ==> !OccursAt(p + d, d, i)
  }

  /** Splitting `p + d + rest` stops right after `p` when `p` splits cleanly. */
  lemma SplitCons(p: string, d: string, rest: string)
    requires |d| > 0 && SplitsCleanly(p, d)
    ensures Split(p + d + rest, d) == [p] + Split(rest, d)
  {
    var s := p + d + rest;
    forall j | 0 <= j < |p| ensures !OccursAt(s, d, j) {
      assert s[j..j + |d|] == (p + d)[j..j + |d|];
      assert !OccursAt(p + d, d, j);
    }
    assert s[|p|..|p| + |d|] == d;
    FindFromIs(s, d, 0, |p|);
    assert s[..|p|] == p;
    assert s[|p| + |d|..] == rest;
  }

  /** A piece that splits cleanly splits into itself. */
  lemma SplitSingle(p: string, d: string)
    requires |d| > 0 && SplitsCleanly(p, d)
    ensures Split(p, d) == [p]
  {
    forall j ensures !OccursAt(p, d, j) {
      if 0 <= j && j + |d| <= |p| {
        assert (p + d)[j..j + |d|] == p[j..j + |d|];
        assert !OccursAt(p + d, d, j);
      }
    }
    assert FindFrom(p, d, 0).None?;
  }

  /** Splitting a join gives the pieces back when every piece splits cleanly. */
  lemma {:induction false} SplitJoin(parts: seq<string>, d: string)
    requires |d| > 0 && |parts| >= 1
    requires forall k :: 0 <= k < |parts| ==> SplitsCleanly(parts[k], d)
    ensures Split(Join(parts, d), d) == parts
    decreases |parts|
  {
    if |parts| == 1 {
      SplitSingle(parts[0], d);
    } else {
      SplitJoin(parts[1..], d);
      SplitCons(parts[0], d, Join(parts[1..], d));
      assert parts == [parts[0]] + parts[1..];
    }
  }

  // ---------------------------------------------------------------------------
  // split yields one more piece than count finds occurrences
  // ---------------------------------------------------------------------------

  lemma {:induction false} CountFromSkips(s: string, d: string, i: nat, j: nat)
    requires |d| > 0 && i <= j && j <= |s| + 1
    requires forall k :: i <= k < j ==> !OccursAt(s, d, k)
    ensures CountFrom(s, d, i) == CountFrom(s, d, j)
    decreases j - i
  {
    if i < j && i + |d| <= |s| {
      CountFromSkips(s, d, i + 1, j);
    } else if i < j {
      // both scans have run past the end
      assert CountFrom(s, d, j) == 0;
    }
  }

  lemma {:induction false} CountFromNone(s: string, d: string, i: nat)
    requires |d| > 0
    requires forall k :: i <= k ==> !OccursAt(s, d, k)
    ensures CountFrom(s, d, i) == 0
    decreases |s| - i
  {
    if i + |d| <= |s| {
      CountFromNone(s, d, i + 1);
    }
  }

  /** A slice of a slice is a slice of the original. */
  lemma SliceOfSlice<T>(s: seq<T>, a: nat, b: nat, c: nat, e: nat)
    requires a <= b <= |s| && c <= e <= b - a
    ensures s[a..b][c..e] == s[a + c..a + e]
  {
    var x, y := s[a..b][c..e], s[a + c..a + e];
    assert |x| == |y|;
    forall k | 0 <= k < |x| ensures x[k] == y[k] {
      assert x[k] == s[a..b][c + k] == s[a + c + k];
    }
  }

  lemma {:induction false} CountFromShift(s: string, d: string, k: nat, m: nat)
    requires |d| > 0 && k <= |s|
    ensures CountFrom(s, d, k + m) == CountFrom(s[k..], d, m)
    decreases |s| - (k + m)
  {
    if k + m + |d| <= |s| {
      OccursShift(s, d, k, m);
      if OccursAt(s, d, k + m) {
        CountFromShift(s, d, k, m + |d|);
      } else {
        CountFromShift(s, d, k, m + 1);
      }
    }
  }

  lemma OccursShift(s: string, d: string, k: nat, m: nat)
    requires k + m + |d| <= |s|
    ensures OccursAt(s, d, k + m) == OccursAt(s[k..], d, m)
  {
    SliceOfSlice(s, k, |s|, m, m + |d|);
  }

  /** The count is one for the first occurrence plus the count after it. */
  lemma CountAtFirst(s: string, d: string, i: nat)
    requires |d| > 0 && OccursAt(s, d, i)
    requires forall k :: 0 <= k < i ==> !OccursAt(s, d, k)
    ensures CountOcc(s, d) == 1 + CountOcc(s[i + |d|..], d)
  {
    CountFromSkips(s, d, 0, i);
    var j := i + |d|;
    assert j <= |s|;
    assert CountFrom(s, d, i) == 1 + CountFrom(s, d, j);
    CountFromShift(s, d, j, 0);
    assert CountFrom(s, d, j) == CountFrom(s[j..], d, 0);
  }

  /** `len(s.split(d)) == s.count(d) + 1`. */
  lemma {:induction false} SplitCount(s: string, d: string)
    requires |d| > 0
    ensures |Split(s, d)| == CountOcc(s, d) + 1
    decreases |s|
  {
    var f := FindFrom(s, d, 0);
    if f.None? {
      CountFromNone(s, d, 0);
      assert Split(s, d) == [s];
    } else {
      var i := f.value;
      var rest := s[i + |d|..];
      SplitCount(rest, d);
      assert Split(s, d) == [s[..i]] + Split(rest, d);
      CountAtFirst(s, d, i);
    }
  }

  /** `s.replace(pat, rep)` keeps the text before the first occurrence of `pat`,
      puts `rep` in its place and carries on after it. */
  lemma ReplaceAllFirst(s: string, pat: string, rep: string, i: nat)
    requires |pat| > 0 && FindFrom(s, pat, 0) == Some(i)
    ensures ReplaceAll(s, pat, rep) == s[..i] + rep + ReplaceAll(s[i + |pat|..], pat, rep)
  {
    var rest := s[i + |pat|..];
    assert Split(s, pat) == [s[..i]] + Split(rest, pat);
    JoinCons(s[..i], Split(rest, pat), rep);
  }

  /** Without an occurrence of `pat`, `s.replace(pat, rep)` is `s`. */
  lemma ReplaceAllAbsent(s: string, pat: string, rep: string)
    requires |pat| > 0 && FindFrom(s, pat, 0).None?
    ensures ReplaceAll(s, pat, rep) == s
  {
    assert Split(s, pat) == [s];
  }

  /** Counting the same swap: each of the `s.count(pat)` occurrences of `pat` is
      exchanged for `rep`, so the length changes by that many times the difference. */
  lemma {:induction false} ReplaceAllLength(s: string, pat: string, rep: string)
    requires |pat| > 0
    ensures |ReplaceAll(s, pat, rep)| + CountOcc(s, pat) * |pat| == |s| + CountOcc(s, pat) * |rep|
    decreases |s|
  {
    var f := FindFrom(s, pat, 0);
    if f.None? {
      SplitCount(s, pat);
      assert Split(s, pat) == [s];
    } else {
      var i := f.value;
      var rest := s[i + |pat|..];
      var r := ReplaceAll(rest, pat, rep);
      ReplaceAllLength(rest, pat, rep);
      assert ReplaceAll(s, pat, rep) == s[..i] + rep + r by {
        assert Split(s, pat) == [s[..i]] + Split(rest, pat);
        JoinCons(s[..i], Split(rest, pat), rep);
      }
      CountAtFirst(s, pat, i);
      OneMore(CountOcc(rest, pat), |pat|, |rep|);
    }
  }

  lemma OneMore(n: nat, a: nat, b: nat)
    ensures (1 + n) * a == a + n * a && (1 + n) * b == b + n * b
  {
  }

  // ---------------------------------------------------------------------------
  // counting one character: replacing a piece that holds it by one that does not
  // ---------------------------------------------------------------------------

  /** The number of copies of `c` in `s`. */
  function CountChar(s: string, c: char): nat
  {
    if s == [] then 0 else (if s[0] == c then 1 else 0) + CountChar(s[1..], c)
  }

  lemma {:induction false} CountCharIsMultiset(s: string, c: char)
    ensures CountChar(s, c) == multiset(s)[c]
  {
    if s != [] {
      assert s == [s[0]] + s[1..];
      CountCharIsMultiset(s[1..], c);
    }
  }

  /** Replacing every occurrence of `pat`, which holds `c`, by `rep`, which does not,
      never adds a `c`, and removes at least one when `pat` occurs. */
  lemma {:induction false} ReplaceAllDropsChar(s: string, pat: string, rep: string, c: char)
    requires |pat| > 0 && c in pat && c !in rep
    ensures multiset(ReplaceAll(s, pat, rep))[c] <= multiset(s)[c]
    ensures (exists j :: OccursAt(s, pat, j)) ==> multiset(ReplaceAll(s, pat, rep))[c] < multiset(s)[c]
    decreases |s|
  {
    match FindFrom(s, pat, 0)
    case None =>
      assert Split(s, pat) == [s];
    case Some(i) =>
      var rest := s[i + |pat|..];
      ReplaceAllDropsChar(rest, pat, rep, c);
      JoinCons(s[..i], Split(rest, pat), rep);
      CutAt(s, pat, i);
      assert multiset(pat)[c] >= 1;
      assert multiset(rep)[c] == 0;
  }

  // ---------------------------------------------------------------------------
  // words joined by single spaces
  // ---------------------------------------------------------------------------

  /** `' '.join(ws)`. */
  function Unwords(ws: seq<string>): string
  {
    Join(ws, " ")
  }

  lemma {:induction false} JoinAppend<T>(a: seq<seq<T>>, b: seq<seq<T>>, d: seq<T>)
    requires |a| >= 1 && |b| >= 1
    ensures Join(a + b, d) == Join(a, d) + d + Join(b, d)
    decreases |a|
  {
    if |a| == 1 {
      assert (a + b)[1..] == b;
    } else {
      JoinAppend(a[1..], b, d);
      assert (a + b)[1..] == a[1..] + b;
    }
  }

  /** Text made of words separated by single spaces begins with the first word's
      first character and ends with the last word's last character. */
  lemma {:induction false} UnwordsEnds(ws: seq<string>)
    requires |ws| >= 1 && forall k :: 0 <= k < |ws| ==> IsWord(ws[k])
    ensures |Unwords(ws)| > 0 && |ws[0]| > 0 && |ws[|ws| - 1]| > 0
    ensures Unwords(ws)[0] == ws[0][0]
    ensures Unwords(ws)[|Unwords(ws)| - 1] == ws[|ws| - 1][|ws[|ws| - 1]| - 1]
    decreases |ws|
  {
    if |ws| > 1 {
      UnwordsEnds(ws[1..]);
    }
  }

  /** A space-joined run of words, as the first piece of a longer text, is followed by
      a space or by the end of that text: after the first word comes a space. */
  lemma UnwordsThenSpace(ws: seq<string>, tail: string)
    requires |ws| >= 1
    ensures (Unwords(ws) + " " + tail)[..|ws[0]|] == ws[0]
    ensures (Unwords(ws) + " " + tail)[|ws[0]|] == ' '
  {
    if |ws| > 1 {
      assert Unwords(ws) + " " + tail == ws[0] + " " + (Unwords(ws[1..]) + " " + tail);
    }
  }

  /** In words joined by single spaces, the separator `" " + kw + " "` can only
      stand where a whole word equals `kw`; so if none does, the text splits cleanly. */
  lemma {:induction false} UnwordsAvoids(ws: seq<string>, kw: string)
    requires |ws| >= 1 && IsWord(kw)
    requires forall k :: 0 <= k < |ws| ==> IsWord(ws[k]) && ws[k] != kw
    ensures SplitsCleanly(Unwords(ws), " " + kw + " ")
    decreases |ws|
  {
    var d := " " + kw + " ";
    var p := Unwords(ws);
    if |ws| > 1 {
      UnwordsAvoids(ws[1..], kw);
    }
    forall i | 0 <= i < |p| ensures !OccursAt(p + d, d, i) {
      if i < |ws[0]| {
        NotInFirstWord(ws, d, i);
      } else if i == |ws[0]| {
        assert IsWord(ws[1]) && ws[1] != kw;
        NotAfterFirstWord(ws, kw);
      } else {
        NotInLaterWords(ws, d, i);
      }
    }
  }

  /** A separator starting with a space does not start inside the first word. */
  lemma NotInFirstWord(ws: seq<string>, d: string, i: nat)
    requires |ws| >= 1 && IsWord(ws[0]) && i < |ws[0]| && |d| > 0 && d[0] == ' '
    ensures !OccursAt(Unwords(ws) + d, d, i)
  {
    var p := Unwords(ws);
    if |ws| > 1 {
      assert p == ws[0] + " " + Unwords(ws[1..]);
    }
    assert (p + d)[i] == ws[0][i];
    MismatchAt(p + d, d, i, 0);
  }

  /** The separator does not start at the space after the first word unless the
      second word is `kw`. */
  lemma NotAfterFirstWord(ws: seq<string>, kw: string)
    requires |ws| >= 2 && IsWord(kw) && IsWord(ws[1]) && ws[1] != kw
    ensures !OccursAt(Unwords(ws) + (" " + kw + " "), " " + kw + " ", |ws[0]|)
  {
    var d := " " + kw + " ";
    var w := ws[0];
    var p := Unwords(ws);
    var rest := ws[1..];
    var q := Unwords(rest);
    var i := |w|;
    var x := q + d;
    AfterFirst(w, q, d);
    SpaceKw(q, kw);
    UnwordsThenSpace(rest, kw + " ");
    if i + |d| <= |p + d| {
      WordThenSpace(x, rest[0], kw);
      var y := x[..|kw| + 1];
      assert (p + d)[i..i + |d|] == " " + y;
      assert d == " " + (kw + " ");
      assert (" " + y)[1..] == y && (" " + (kw + " "))[1..] == kw + " ";
    }
  }

  lemma AfterFirst(w: string, q: string, d: string)
    ensures (w + " " + q) + d == w + " " + (q + d)
    ensures (w + " " + (q + d))[|w| + 1..] == q + d
  {
  }

  lemma SpaceKw(q: string, kw: string)
    ensures q + (" " + kw + " ") == q + " " + (kw + " ")
  {
  }

  /** A text that starts with the word `v` and a space does not start with a different
      word `kw` and a space. */
  lemma WordThenSpace(x: string, v: string, kw: string)
    requires IsWord(v) && IsWord(kw) && v != kw
    requires |v| < |x| && x[..|v|] == v && x[|v|] == ' ' && |kw| + 1 <= |x|
    ensures x[..|kw| + 1] != kw + " "
  {
    var y := x[..|kw| + 1];
    if |v| < |kw| {
      assert y[|v|] == ' ' && (kw + " ")[|v|] == kw[|v|];
    } else if |v| > |kw| {
      assert y[|kw|] == v[|kw|] && (kw + " ")[|kw|] == ' ';
    } else {
      assert y[..|kw|] == v && (kw + " ")[..|kw|] == kw;
    }
  }

  /** Past the first word and its space, an occurrence would be one in the rest. */
  lemma NotInLaterWords(ws: seq<string>, d: string, i: nat)
    requires |ws| >= 2 && |ws[0]| < i && SplitsCleanly(Unwords(ws[1..]), d)
    requires i < |Unwords(ws)|
    ensures !OccursAt(Unwords(ws) + d, d, i)
  {
    var w := ws[0];
    var p := Unwords(ws);
    var q := Unwords(ws[1..]);
    assert p + d == w + " " + (q + d);
    var j := i - |w| - 1;
    assert !OccursAt(q + d, d, j);
    if i + |d| <= |p + d| {
      assert (p + d)[i..i + |d|] == (q + d)[j..j + |d|];
    }
  }
}
