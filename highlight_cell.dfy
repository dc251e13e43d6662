/**
 * `DataTableHighlightCell`: the cell text is split around every
 * case-insensitive occurrence of the table's global search term, and the
 * pieces equal to the term are marked.
 */
module HighlightCell {
  import opened JsValues

  // ---------------------------------------------------------------------
  // Escaping the term into a regular expression
  // ---------------------------------------------------------------------

  /** The characters the escape pattern `[.*+?^${}()|[\]\\]` picks out. */
  predicate IsMeta(c: char)
  {
    c in ".*+?^${}()|[]\\"
  }

  /** `searchTerm.replace(/[.*+?^${}()|[\]\\]/g, "\\$&")`: a backslash before each metacharacter. */
  function Escape(t: string): (r: string)
    ensures |r| >= |t|
  {
    if t == [] then []
    else (if IsMeta(t[0]) then ['\\', t[0]] else [t[0]]) + Escape(t[1..])
  }

  /** A pattern made only of plain characters and escaped metacharacters. */
  predicate LiteralPattern(p: string)
  {
    if p == [] then true
    else if p[0] == '\\' then |p| >= 2 && IsMeta(p[1]) && LiteralPattern(p[2..])
    else !IsMeta(p[0]) && LiteralPattern(p[1..])
  }

  /** The one string a literal pattern matches: an escaped metacharacter stands for itself. */
  function RegexLiteral(p: string): (r: string)
    requires LiteralPattern(p)
    ensures |r| <= |p|
  {
    if p == [] then []
    else if p[0] == '\\' then [p[1]] + RegexLiteral(p[2..])
    else [p[0]] + RegexLiteral(p[1..])
  }

  /** After escaping, the pattern is literal and matches exactly the term, metacharacters included. */
  lemma {:induction false} EscapeIsLiteral(t: string)
    ensures LiteralPattern(Escape(t))
    ensures RegexLiteral(Escape(t)) == t
  {
    if t != [] {
      EscapeIsLiteral(t[1..]);
      var e := Escape(t);
      if IsMeta(t[0]) {
        assert e[2..] == Escape(t[1..]);
      } else {
        assert e[1..] == Escape(t[1..]);
      }
    }
  }

  // ---------------------------------------------------------------------
  // `String.prototype.split` with `/(term)/gi`
  // ---------------------------------------------------------------------

  /** Equality of two strings once both are lower-cased, character by character. */
  predicate EqualIgnoringCase(a: string, b: string)
    decreases |a|
  {
    |a| == |b| && (a == [] || (LowerChar(a[0]) == LowerChar(b[0]) && EqualIgnoringCase(a[1..], b[1..])))
  }

  /** Comparing character by character is comparing the `toLowerCase` forms. */
  lemma {:induction false} EqualIgnoringCaseIsLower(a: string, b: string)
    decreases |a|
    ensures EqualIgnoringCase(a, b) <==> Lower(a) == Lower(b)
  {
    if |a| == |b| && a != [] {
      EqualIgnoringCaseIsLower(a[1..], b[1..]);
      assert Lower(a) == [LowerChar(a[0])] + Lower(a[1..]);
      assert Lower(b) == [LowerChar(b[0])] + Lower(b[1..]);
    } else if |a| != |b| {
      assert |Lower(a)| != |Lower(b)|;
    }
  }

  /** The term matches `s` at `q`, ignoring case. */
  predicate MatchesAt(s: string, t: string, q: int)
  {
    0 <= q && q + |t| <= |s| && EqualIgnoringCase(s[q..q + |t|], t)
  }

  /** The leftmost match at or after `p`, or -1. */
  function FirstMatch(s: string, t: string, p: nat): (q: int)
    requires p <= |s|
    decreases |s| - p
    ensures q == -1 || (p <= q && q + |t| <= |s|)
  {
    if p + |t| > |s| then -1
    else if MatchesAt(s, t, p) then p
    else if p == |s| then -1
    else FirstMatch(s, t, p + 1)
  }

  /** `FirstMatch` finds a match, and no match starts between `p` and it (or anywhere from `p` on when it finds none). */
  lemma {:induction false} FirstMatchIsLeftmost(s: string, t: string, p: nat)
    requires p <= |s|
    decreases |s| - p
    ensures var q := FirstMatch(s, t, p);
            (q == -1 || MatchesAt(s, t, q)) && forall k | p <= k && (q == -1 || k < q) :: !MatchesAt(s, t, k)
  {
    if p + |t| <= |s| && !MatchesAt(s, t, p) && p < |s| {
      FirstMatchIsLeftmost(s, t, p + 1);
    }
  }

  /**
   * Splitting from position `p`: the text before the next match, the matched
   * text (the capture group), and so on, ending with the text after the last
   * match.
   */
  function SplitFrom(s: string, t: string, p: nat): seq<string>
    requires 0 < |t| && p <= |s|
    decreases |s| - p
  {
    var q := FirstMatch(s, t, p);
    if q < 0 then [s[p..]]
    else [s[p..q], s[q..q + |t|]] + SplitFrom(s, t, q + |t|)
  }

  function Concat(parts: seq<string>): string
  {
    if parts == [] then "" else parts[0] + Concat(parts[1..])
  }

  /** No case-insensitive occurrence of `t` lies inside `x`. */
  predicate NoOccurrence(x: string, t: string)
  {
    forall k | 0 <= k <= |x| :: !MatchesAt(x, t, k)
  }

  /** A stretch with no match starting in it holds no occurrence. */
  lemma GapHasNoOccurrence(s: string, t: string, p: nat, q: nat)
    requires 0 < |t| && p <= q <= |s|
    requires forall k | p <= k < q :: !MatchesAt(s, t, k)
    ensures NoOccurrence(s[p..q], t)
  {
    forall k | 0 <= k <= |s[p..q]| ensures !MatchesAt(s[p..q], t, k) {
      if k + |t| <= |s[p..q]| {
        var x := s[p..q];
        var u, w := x[k..k + |t|], s[p + k..p + k + |t|];
        assert u == w by {
          forall j | 0 <= j < |t| ensures u[j] == w[j] {
            assert x[k + j] == s[p + k + j];
          }
        }
        assert !MatchesAt(s, t, p + k);
      }
    }
  }

  /** An odd-numbered piece is a match, an even-numbered one holds no occurrence. */
  predicate PieceFits(x: string, i: int, t: string)
  {
    (i % 2 == 1 ==> EqualIgnoringCase(x, t)) && (i % 2 == 0 ==> NoOccurrence(x, t))
  }

  lemma ConcatPair(a: string, b: string, rest: seq<string>)
    ensures Concat([a, b] + rest) == a + b + Concat(rest)
  {
    var parts := [a, b] + rest;
    assert parts[1..][1..] == rest;
  }

  /** One step of the split: the text before the next match and the match, then the rest. */
  lemma SplitFromStep(s: string, t: string, p: nat) returns (q: int)
    requires 0 < |t| && p <= |s|
    ensures q == FirstMatch(s, t, p)
    ensures q < 0 ==> SplitFrom(s, t, p) == [s[p..]]
    ensures q >= 0 ==> p <= q && q + |t| <= |s|
                       && SplitFrom(s, t, p) == [s[p..q], s[q..q + |t|]] + SplitFrom(s, t, q + |t|)
  {
    q := FirstMatch(s, t, p);
  }

  /** The pieces put back together give the text from `p` on. */
  lemma {:induction false} SplitFromConcat(s: string, t: string, p: nat)
    requires 0 < |t| && p <= |s|
    decreases |s| - p
    ensures Concat(SplitFrom(s, t, p)) == s[p..]
  {
    var q := SplitFromStep(s, t, p);
    if q < 0 {
      assert Concat([s[p..]]) == s[p..] + Concat([]);
    } else {
      var e := q + |t|;
      var rest := SplitFrom(s, t, e);
      SplitFromConcat(s, t, e);
      ConcatPair(s[p..q], s[q..e], rest);
      assert s[p..] == s[p..q] + s[q..e] + s[e..];
    }
  }

  /** An odd number of pieces, alternating between gaps and matches. */
  predicate WellShaped(parts: seq<string>, t: string)
  {
    |parts| % 2 == 1 && forall i | 0 <= i < |parts| :: PieceFits(parts[i], i, t)
  }

  /** A single gap is well shaped. */
  lemma ShapeSingle(x: string, t: string)
    requires NoOccurrence(x, t)
    ensures WellShaped([x], t)
  {
  }

  /** The shape of the pieces is kept when a gap and a match are put in front. */
  lemma ShapeCons(x: string, y: string, rest: seq<string>, t: string)
    requires NoOccurrence(x, t) && EqualIgnoringCase(y, t) && WellShaped(rest, t)
    ensures WellShaped([x, y] + rest, t)
  {
    var parts := [x, y] + rest;
    forall i | 0 <= i < |parts| ensures PieceFits(parts[i], i, t) {
      if i >= 2 {
        assert parts[i] == rest[i - 2];
        assert PieceFits(rest[i - 2], i - 2, t);
      }
    }
  }

  /** The text before the next match holds no occurrence, and the match is the term ignoring case. */
  lemma GapBeforeMatch(s: string, t: string, p: nat, q: int)
    requires 0 < |t| && p <= |s| && q == FirstMatch(s, t, p)
    ensures q < 0 ==> NoOccurrence(s[p..], t)
    ensures q >= 0 ==> NoOccurrence(s[p..q], t) && EqualIgnoringCase(s[q..q + |t|], t)
  {
    if q < 0 {
      assert NoOccurrence(s[p..], t) by {
        FirstMatchIsLeftmost(s, t, p);
        GapHasNoOccurrence(s, t, p, |s|);
        assert s[p..] == s[p..|s|];
      }
    } else {
      assert MatchesAt(s, t, q) by {
        FirstMatchIsLeftmost(s, t, p);
      }
      assert NoOccurrence(s[p..q], t) by {
        FirstMatchIsLeftmost(s, t, p);
        GapHasNoOccurrence(s, t, p, q);
      }
    }
  }

  /**
   * There is an odd number of pieces; the odd-numbered ones are the matches
   * and the even-numbered ones hold no occurrence of the term.
   */
  lemma {:induction false} SplitFromShape(s: string, t: string, p: nat)
    requires 0 < |t| && p <= |s|
    decreases |s| - p
    ensures WellShaped(SplitFrom(s, t, p), t)
  {
    var q := SplitFromStep(s, t, p);
    GapBeforeMatch(s, t, p, q);
    if q < 0 {
      ShapeSingle(s[p..], t);
    } else {
      var e := q + |t|;
      SplitFromShape(s, t, e);
      ShapeCons(s[p..q], s[q..e], SplitFrom(s, t, e), t);
    }
  }

  /** A piece with no occurrence of a non-empty term is not equal to it, ignoring case. */
  lemma NoOccurrenceDiffers(x: string, t: string)
    requires 0 < |t| && NoOccurrence(x, t)
    ensures Lower(x) != Lower(t)
  {
    EqualIgnoringCaseIsLower(x, t);
    if |x| == |t| {
      assert !MatchesAt(x, t, 0);
      assert x[0..|t|] == x;
    }
  }

  // ---------------------------------------------------------------------
  // The cell
  // ---------------------------------------------------------------------

  /** A piece of the cell: `<mark>`ed or plain. */
  datatype Part = Part(text: string, highlighted: bool)

  /** `String(value ?? "")`. */
  function CellText(rt: Runtime, value: Value): string
  {
    if value.JNull? || value.JUndefined? then "" else ToStr(rt, value)
  }

  /** `(globalFilter as string) ?? ""`. */
  function SearchTerm(globalFilter: Option<string>): string
  {
    if globalFilter.Some? then globalFilter.value else ""
  }

  /** `parts.map((part) => part.toLowerCase() === searchTerm.toLowerCase() ? <mark> : part)`. */
  function MarkParts(parts: seq<string>, searchTerm: string): (r: seq<Part>)
    ensures |r| == |parts|
    ensures forall i | 0 <= i < |parts| :: r[i].text == parts[i]
    ensures forall i | 0 <= i < |parts| :: r[i].highlighted <==> Lower(parts[i]) == Lower(searchTerm)
  {
    if parts == [] then []
    else [Part(parts[0], Lower(parts[0]) == Lower(searchTerm))] + MarkParts(parts[1..], searchTerm)
  }

  /** What the cell renders, piece by piece. */
  function Highlight(rt: Runtime, value: Value, globalFilter: Option<string>): seq<Part>
  {
    var searchTerm := SearchTerm(globalFilter);
    var stringValue := CellText(rt, value);
    if searchTerm == "" || stringValue == "" then [Part(stringValue, false)]
    else
      var escapedSearchTerm := Escape(searchTerm);
      EscapeIsLiteral(searchTerm);
      var parts := SplitFrom(stringValue, RegexLiteral(escapedSearchTerm), 0);
      MarkParts(parts, searchTerm)
  }

  function Texts(parts: seq<Part>): (r: seq<string>)
    ensures |r| == |parts|
    ensures forall i | 0 <= i < |parts| :: r[i] == parts[i].text
  {
    seq(|parts|, i requires 0 <= i < |parts| => parts[i].text)
  }

  /** An empty term or an empty cell text renders the whole text, unmarked; null and undefined read as "". */
  lemma EmptyTermOrValueIsPlain(rt: Runtime, value: Value, globalFilter: Option<string>)
    requires globalFilter.None? || globalFilter == Some("") || value.JNull? || value.JUndefined? || CellText(rt, value) == ""
    ensures Highlight(rt, value, globalFilter) == [Part(CellText(rt, value), false)]
  {
  }

  /** The pieces put back together give the cell text exactly. */
  lemma HighlightReassembles(rt: Runtime, value: Value, globalFilter: Option<string>)
    ensures Concat(Texts(Highlight(rt, value, globalFilter))) == CellText(rt, value)
  {
    var searchTerm := SearchTerm(globalFilter);
    var stringValue := CellText(rt, value);
    if searchTerm == "" || stringValue == "" {
      assert Concat([stringValue]) == stringValue + Concat([]);
    } else {
      EscapeIsLiteral(searchTerm);
      var parts := SplitFrom(stringValue, searchTerm, 0);
      SplitFromConcat(stringValue, searchTerm, 0);
      assert Texts(Highlight(rt, value, globalFilter)) == parts;
    }
  }

  /**
   * With a term and a text, the marked pieces are exactly the odd-numbered
   * ones, each equal to the term ignoring case, and no unmarked piece
   * contains an occurrence of the term.
   */
  lemma HighlightMarksMatches(rt: Runtime, value: Value, term: string)
    requires term != "" && CellText(rt, value) != ""
    ensures var r := Highlight(rt, value, Some(term));
            |r| % 2 == 1
            && forall i | 0 <= i < |r| ::
                 (r[i].highlighted <==> i % 2 == 1)
                 && (r[i].highlighted ==> Lower(r[i].text) == Lower(term))
                 && (!r[i].highlighted ==> NoOccurrence(r[i].text, term))
  {
    var stringValue := CellText(rt, value);
    EscapeIsLiteral(term);
    var parts := SplitFrom(stringValue, term, 0);
    SplitFromShape(stringValue, term, 0);
    var r := Highlight(rt, value, Some(term));
    assert r == MarkParts(parts, term);
    forall i | 0 <= i < |r| && i % 2 == 0 ensures !r[i].highlighted {
      NoOccurrenceDiffers(parts[i], term);
    }
    forall i | 0 <= i < |r| && i % 2 == 1 ensures Lower(parts[i]) == Lower(term) {
      EqualIgnoringCaseIsLower(parts[i], term);
    }
  }

  /** Splitting "xA.By" around "a.b" gives "x", the match "A.B" and "y". */
  lemma DotSplit()
    ensures SplitFrom("xA.By", "a.b", 0) == ["x", "A.B", "y"]
  {
    var s, t := "xA.By", "a.b";
    assert !MatchesAt(s, t, 0) by {
      assert s[0..3] == "xA.";
    }
    assert MatchesAt(s, t, 1) by {
      assert s[1..4] == "A.B";
      EqualIgnoringCaseIsLower("A.B", t);
      assert Lower("A.B") == Lower(t);
    }
    var q := SplitFromStep(s, t, 0);
    assert q == 1;
    var q' := SplitFromStep(s, t, 4);
    assert q' == -1;
    assert s[0..1] == "x" && s[1..4] == "A.B" && s[4..] == "y";
  }

  /** For a non-empty string and term, the cell marks the pieces of the split. */
  lemma HighlightOfString(rt: Runtime, s: string, t: string)
    requires s != "" && t != ""
    ensures Highlight(rt, JString(s), Some(t)) == MarkParts(SplitFrom(s, t, 0), t)
  {
    EscapeIsLiteral(t);
  }

  /** Metacharacters count as text: the term "a.b" marks "A.B" in "xA.By". */
  lemma DotMatchesItself(rt: Runtime)
    ensures Highlight(rt, JString("xA.By"), Some("a.b"))
            == [Part("x", false), Part("A.B", true), Part("y", false)]
  {
    var parts := ["x", "A.B", "y"];
    assert Highlight(rt, JString("xA.By"), Some("a.b")) == MarkParts(parts, "a.b") by {
      HighlightOfString(rt, "xA.By", "a.b");
      DotSplit();
    }
    assert MarkParts(parts, "a.b") == [Part("x", false), Part("A.B", true), Part("y", false)] by {
      LowerExamples();
    }
  }

  lemma LowerExamples()
    ensures Lower("a.b") == "a.b" && Lower("A.B") == "a.b"
    ensures Lower("x") == "x" && Lower("y") == "y"
  {
  }

  /** ... and the dot does not stand for any character: "aXb" has no mark. */
  lemma DotIsNoWildcard(rt: Runtime)
    ensures Highlight(rt, JString("aXb"), Some("a.b")) == [Part("aXb", false)]
  {
    HighlightOfString(rt, "aXb", "a.b");
    var s, t := "aXb", "a.b";
    assert !MatchesAt(s, t, 0) by {
      assert s[0..3] == s;
    }
    var q := SplitFromStep(s, t, 0);
    assert q == -1;
    assert s[0..] == s;
    assert Lower(s) != Lower(t) by {
      assert Lower(s)[1] == 'x';
    }
  }
}
