/** The two pieces of logic in the picker's UI file: `mark`, which cuts a
    title or URL into plain and highlighted segments, and the tokenisation of
    the query into keywords that is handed to the matcher. */
module App {
  import opened JsString
  import opened Matcher

  // ---------------------------------------------------------------------
  // Highlighting

  /** One piece of a highlighted string: an `<em>` when `matched`, a plain
      `<span>` otherwise. */
  datatype Segment = Segment(matched: bool, text: string)

  /** What `mark` returns: the string itself when there are no spans, the
      list of segments otherwise. */
  datatype Marked = Plain(text: string) | Segmented(segments: seq<Segment>)

  /** The cursor after the loop has processed `spans`: the end of the last
      one, or 0. */
  function Cursor(spans: seq<Span>): int {
    if spans == [] then 0 else spans[|spans| - 1].end
  }

  /** The plain segment before a span, pushed only when the cursor is before
      the span's start. */
  function Gap(str: string, t: int, start: int): seq<Segment> {
    if t < start then [Segment(false, Substring(str, t, start))] else []
  }

  /** The plain segment after the last span, pushed only when the cursor is
      before the end of the string. */
  function Tail(str: string, t: int): seq<Segment> {
    if t < |str| then [Segment(false, SubstringFrom(str, t))] else []
  }

  /** The segments the loop pushes for `spans`: for each span, the gap before
      it, then the span itself. */
  function Pieces(str: string, spans: seq<Span>): seq<Segment>
  {
    if spans == [] then []
    else
      var init, s := spans[..|spans| - 1], spans[|spans| - 1];
      Pieces(str, init) + Gap(str, Cursor(init), s.start) + [Segment(true, Substring(str, s.start, s.end))]
  }

  /** All segments `mark` produces for a non-empty span list. */
  function MarkSegments(str: string, spans: seq<Span>): seq<Segment> {
    Pieces(str, spans) + Tail(str, Cursor(spans))
  }

  /** The value `mark(str, spans)` returns. */
  function MarkOf(str: string, spans: seq<Span>): Marked {
    if |spans| == 0 then Plain(str) else Segmented(MarkSegments(str, spans))
  }

  /** The text of a list of segments, read left to right. */
  function Concat(segments: seq<Segment>): string {
    if segments == [] then []
    else Concat(segments[..|segments| - 1]) + segments[|segments| - 1].text
  }

  /** The text a marked string displays. */
  function Rendered(m: Marked): string {
    match m
    case Plain(s) => s
    case Segmented(segments) => Concat(segments)
  }

  /** The texts of the highlighted segments, in order. */
  function MatchedTexts(segments: seq<Segment>): seq<string> {
    if segments == [] then []
    else
      var last := segments[|segments| - 1];
      MatchedTexts(segments[..|segments| - 1]) + (if last.matched then [last.text] else [])
  }

  /** Every span lies within `str`, start before end. */
  predicate InBounds(str: string, spans: seq<Span>) {
    forall k :: 0 <= k < |spans| ==> 0 <= spans[k].start <= spans[k].end <= |str|
  }

  /** Each span ends no later than the next one starts: sorted by start and
      non-overlapping. */
  predicate Ordered(spans: seq<Span>) {
    forall k :: 0 < k < |spans| ==> spans[k - 1].end <= spans[k].start
  }

  /** `mark(str, matches)`. */
  method Mark(str: string, matches: seq<Span>) returns (m: Marked)
    ensures m == MarkOf(str, matches)
    ensures matches == [] ==> m == Plain(str)
    ensures InBounds(str, matches) && Ordered(matches) ==> Rendered(m) == str
  {
    if |matches| == 0 {
      m := Plain(str);
    } else {
      var t := 0;
      var result := [];
      for i := 0 to |matches|
        invariant t == Cursor(matches[..i])
        invariant result == Pieces(str, matches[..i])
      {
        var span := matches[i];
        assert matches[..i + 1][..i] == matches[..i];
        if t < span.start {
          result := result + [Segment(false, Substring(str, t, span.start))];
        }
        result := result + [Segment(true, Substring(str, span.start, span.end))];
        t := span.end;
      }
      assert matches[..|matches|] == matches;
      if t < |str| {
        result := result + [Segment(false, SubstringFrom(str, t))];
      }
      m := Segmented(result);
    }
    if InBounds(str, matches) && Ordered(matches) {
      MarkRoundTrip(str, matches);
    }
  }

  lemma {:induction false} ConcatAppend(a: seq<Segment>, b: seq<Segment>)
    ensures Concat(a + b) == Concat(a) + Concat(b)
  {
    if b == [] {
      assert a + b == a;
    } else {
      assert (a + b)[..|a + b| - 1] == a + b[..|b| - 1];
      ConcatAppend(a, b[..|b| - 1]);
    }
  }

  lemma {:induction false} MatchedTextsAppend(a: seq<Segment>, b: seq<Segment>)
    ensures MatchedTexts(a + b) == MatchedTexts(a) + MatchedTexts(b)
  {
    if b == [] {
      assert a + b == a;
    } else {
      assert (a + b)[..|a + b| - 1] == a + b[..|b| - 1];
      MatchedTextsAppend(a, b[..|b| - 1]);
    }
  }

  /** With in-bounds, ordered spans, the segments pushed in the loop spell
      out the string up to the cursor, and the cursor stays in the string. */
  lemma {:induction false} PiecesCover(str: string, spans: seq<Span>)
    requires InBounds(str, spans) && Ordered(spans)
    ensures 0 <= Cursor(spans) <= |str|
    ensures Concat(Pieces(str, spans)) == str[..Cursor(spans)]
  {
    if spans != [] {
      var n := |spans| - 1;
      var init, s := spans[..n], spans[n];
      assert forall k :: 0 <= k < n ==> init[k] == spans[k];
      PiecesCover(str, init);
      var t := Cursor(init);
      assert t <= s.start by {
        if init != [] {
          assert spans[n - 1].end <= spans[n].start;
        }
      }
      var gap := Gap(str, t, s.start);
      var em := [Segment(true, Substring(str, s.start, s.end))];
      ConcatAppend(Pieces(str, init) + gap, em);
      ConcatAppend(Pieces(str, init), gap);
      PieceTexts(str, t, s);
      SlicesJoin(str, t, s.start, s.end);
    }
  }

  /** The gap before a span spells out the string between the cursor and
      the span, and the span's segment spells out the span. */
  lemma PieceTexts(str: string, t: int, s: Span)
    requires 0 <= t <= s.start <= s.end <= |str|
    ensures Concat(Gap(str, t, s.start)) == str[t..s.start]
    ensures Concat([Segment(true, Substring(str, s.start, s.end))]) == str[s.start..s.end]
  {
    var gap := Gap(str, t, s.start);
    if t < s.start {
      assert gap[..0] == [];
    }
    var em := [Segment(true, Substring(str, s.start, s.end))];
    assert em[..0] == [];
  }

  lemma SlicesJoin(str: string, a: int, b: int, c: int)
    requires 0 <= a <= b <= c <= |str|
    ensures str[..a] + str[a..b] + str[b..c] == str[..c]
  {
    assert str[..c] == str[..a] + str[a..b] + str[b..c];
  }

  /** With in-bounds spans, sorted and non-overlapping, the segments
      concatenate back to the input; with no spans the input is returned as
      it is. */
  lemma MarkRoundTrip(str: string, spans: seq<Span>)
    requires InBounds(str, spans) && Ordered(spans)
    ensures Rendered(MarkOf(str, spans)) == str
  {
    if spans != [] {
      PiecesCover(str, spans);
      var t := Cursor(spans);
      var tail := Tail(str, t);
      ConcatAppend(Pieces(str, spans), tail);
      if t < |str| {
        assert tail[..0] == [];
        assert str[..t] + str[t..] == str;
      } else {
        assert str[..t] == str;
      }
    }
  }

  /** The texts of the spans, in span order. */
  function SpanTexts(str: string, spans: seq<Span>): seq<string> {
    if spans == [] then []
    else
      var s := spans[|spans| - 1];
      SpanTexts(str, spans[..|spans| - 1]) + [Substring(str, s.start, s.end)]
  }

  /** The highlighted segments are exactly the spans' substrings, one per
      span, in span order; for an in-bounds span that is `str[start..end)`. */
  lemma MarkHighlightsSpans(str: string, spans: seq<Span>)
    ensures |MatchedTexts(MarkSegments(str, spans))| == |spans|
    ensures forall k :: 0 <= k < |spans| ==>
      MatchedTexts(MarkSegments(str, spans))[k] == Substring(str, spans[k].start, spans[k].end)
    ensures InBounds(str, spans) ==> forall k :: 0 <= k < |spans| ==>
      MatchedTexts(MarkSegments(str, spans))[k] == str[spans[k].start..spans[k].end]
  {
    PiecesHighlightSpans(str, spans);
    SpanTextsAt(str, spans);
    MatchedTextsAppend(Pieces(str, spans), Tail(str, Cursor(spans)));
    var tail := Tail(str, Cursor(spans));
    if tail != [] {
      assert tail[..0] == [];
    }
  }

  lemma {:induction false} SpanTextsAt(str: string, spans: seq<Span>)
    ensures |SpanTexts(str, spans)| == |spans|
    ensures forall k :: 0 <= k < |spans| ==> SpanTexts(str, spans)[k] == Substring(str, spans[k].start, spans[k].end)
  {
    if spans != [] {
      var n := |spans| - 1;
      var init := spans[..n];
      SpanTextsAt(str, init);
      var before := SpanTexts(str, init);
      var last := Substring(str, spans[n].start, spans[n].end);
      assert SpanTexts(str, spans) == before + [last];
      forall k | 0 <= k < |spans|
        ensures (before + [last])[k] == Substring(str, spans[k].start, spans[k].end)
      {
        if k < n {
          assert (before + [last])[k] == before[k];
          assert init[k] == spans[k];
        } else {
          assert (before + [last])[k] == last;
        }
      }
    }
  }

  lemma {:induction false} PiecesHighlightSpans(str: string, spans: seq<Span>)
    ensures MatchedTexts(Pieces(str, spans)) == SpanTexts(str, spans)
  {
    if spans != [] {
      PiecesHighlightSpans(str, spans[..|spans| - 1]);
      PiecesMatchedStep(str, spans);
    }
  }

  /** One more span adds exactly its own text to the highlighted ones. */
  lemma PiecesMatchedStep(str: string, spans: seq<Span>)
    requires spans != []
    ensures var n := |spans| - 1;
      MatchedTexts(Pieces(str, spans)) ==
      MatchedTexts(Pieces(str, spans[..n])) + [Substring(str, spans[n].start, spans[n].end)]
  {
    var n := |spans| - 1;
    var init, s := spans[..n], spans[n];
    var gap := Gap(str, Cursor(init), s.start);
    var em := [Segment(true, Substring(str, s.start, s.end))];
    MatchedTextsAppend(Pieces(str, init) + gap, em);
    MatchedTextsAppend(Pieces(str, init), gap);
    if gap != [] {
      assert gap[..0] == [];
    }
    assert em[..0] == [];
  }

  /** With in-bounds spans no plain segment is empty: a gap is pushed only
      when the cursor is before the span's start, the tail only when it is
      before the end of the string. */
  lemma {:induction false} MarkGapsNonEmpty(str: string, spans: seq<Span>)
    requires InBounds(str, spans)
    ensures forall k :: 0 <= k < |MarkSegments(str, spans)| && !MarkSegments(str, spans)[k].matched ==>
      MarkSegments(str, spans)[k].text != []
  {
    PiecesGapsNonEmpty(str, spans);
    var pieces, tail := Pieces(str, spans), Tail(str, Cursor(spans));
    assert forall k :: 0 <= k < |pieces| ==> (pieces + tail)[k] == pieces[k];
  }

  lemma {:induction false} PiecesGapsNonEmpty(str: string, spans: seq<Span>)
    requires InBounds(str, spans)
    ensures 0 <= Cursor(spans) <= |str|
    ensures forall k :: 0 <= k < |Pieces(str, spans)| && !Pieces(str, spans)[k].matched ==>
      Pieces(str, spans)[k].text != []
  {
    if spans != [] {
      var n := |spans| - 1;
      var init, s := spans[..n], spans[n];
      assert forall k :: 0 <= k < n ==> init[k] == spans[k];
      PiecesGapsNonEmpty(str, init);
      var before := Pieces(str, init);
      var rest := Gap(str, Cursor(init), s.start) + [Segment(true, Substring(str, s.start, s.end))];
      assert Pieces(str, spans) == before + rest;
      assert forall k :: 0 <= k < |before| ==> (before + rest)[k] == before[k];
    }
  }

  /** At most one plain segment before each span, plus one after the last. */
  lemma {:induction false} MarkSize(str: string, spans: seq<Span>)
    ensures |spans| <= |MarkSegments(str, spans)| <= 2 * |spans| + 1
  {
    PiecesSize(str, spans);
  }

  lemma {:induction false} PiecesSize(str: string, spans: seq<Span>)
    ensures |spans| <= |Pieces(str, spans)| <= 2 * |spans|
  {
    if spans != [] {
      PiecesSize(str, spans[..|spans| - 1]);
    }
  }

  /** The spans a single keyword records are in bounds and trivially ordered,
      so highlighting them gives the field back. */
  lemma SingleKeywordRoundTrip(text: string, word: string)
    ensures Rendered(MarkOf(text, FieldMatches(text, [word]))) == text
  {
    SpansLocateKeywords(text, [word]);
    FieldMatchesFollowKeywords(text, [word]);
    var spans := FieldMatches(text, [word]);
    assert forall k :: 0 <= k < |spans| ==> spans[k] in spans;
    MarkRoundTrip(text, spans);
  }

  /** Overlapping spans, as overlapping keywords produce, do not give the
      field back: "ab" with keywords "ab" and "b" displays as "abb". */
  lemma OverlappingKeywordsRepeatText()
    ensures FieldMatches("ab", ["ab", "b"]) == [Span(0, 2), Span(1, 2)]
    ensures Rendered(MarkOf("ab", [Span(0, 2), Span(1, 2)])) == "abb"
  {
    OverlappingSpans();
    OverlappingRendering();
  }

  lemma OverlappingSpans()
    ensures FieldMatches("ab", ["ab", "b"]) == [Span(0, 2), Span(1, 2)]
  {
    var kws := ["ab", "b"];
    assert kws[..1] == ["ab"] && kws[..1][..0] == [];
    assert "ab"[0..2] == "ab" && "ab"[1..2] == "b";
    assert "ab"[..1] == "a";
    NoOccurrenceBefore("ab", "b", 1);
    IndexOfFirst("ab", "ab");
    IndexOfFirst("ab", "b");
    assert OccursAt("ab", "ab", 0) && OccursAt("ab", "b", 1);
    assert WordMatch("ab", "ab") == [Span(0, 2)];
    assert WordMatch("ab", "b") == [Span(1, 2)];
  }

  lemma OverlappingRendering()
    ensures Rendered(MarkOf("ab", [Span(0, 2), Span(1, 2)])) == "abb"
  {
    var spans := [Span(0, 2), Span(1, 2)];
    assert spans[..1] == [Span(0, 2)] && spans[..1][..0] == [];
    var segs := [Segment(true, "ab"), Segment(true, "b")];
    assert "ab"[0..2] == "ab" && "ab"[1..2] == "b";
    assert Substring("ab", 0, 2) == "ab" && Substring("ab", 1, 2) == "b";
    assert Gap("ab", 0, 0) == [] && Gap("ab", 2, 1) == [];
    assert Pieces("ab", spans[..1]) == [Segment(true, "ab")];
    assert Pieces("ab", spans) == segs;
    assert Tail("ab", 2) == [];
    assert MarkSegments("ab", spans) == segs;
    assert segs[..1] == [Segment(true, "ab")] && segs[..1][..0] == [];
    assert Concat(segs[..1]) == "ab";
    assert Concat(segs) == "ab" + "b";
  }

  // ---------------------------------------------------------------------
  // The query

  /** What the pattern `\s` matches: ECMAScript white space and line
      terminators. */
  predicate IsWhitespace(c: char) {
    c == ' ' || c == '\t' || c == '\n' || c == '\r' || c == '\U{000B}' || c == '\U{000C}' ||
    c == '\U{00A0}' || c == '\U{1680}' || ('\U{2000}' <= c <= '\U{200A}') ||
    c == '\U{2028}' || c == '\U{2029}' || c == '\U{202F}' || c == '\U{205F}' ||
    c == '\U{3000}' || c == '\U{FEFF}'
  }

  /** `query.split(/\s+/)`: the pieces between maximal runs of white space.
      A leading run gives an empty first piece, a trailing run an empty last
      piece, and the empty query the single piece "". */
  function SplitOnWhitespace(q: string): (r: seq<string>)
    ensures |r| >= 1
  {
    if q == [] then [[]]
    else
      var rest := SplitOnWhitespace(q[1..]);
      if !IsWhitespace(q[0]) then [[q[0]] + rest[0]] + rest[1..]
      else if |q| > 1 && IsWhitespace(q[1]) then rest
      else [[]] + rest
  }

  /** `.filter(Boolean)`: drops the empty pieces. */
  function NonEmpty(pieces: seq<string>): seq<string> {
    if pieces == [] then []
    else (if pieces[0] == [] then [] else [pieces[0]]) + NonEmpty(pieces[1..])
  }

  /** The keywords handed to the matcher for a query. */
  function Keywords(query: string): seq<string> {
    NonEmpty(SplitOnWhitespace(query))
  }

  /** The query with every white-space character removed. */
  function RemoveWhitespace(q: string): string {
    if q == [] then []
    else (if IsWhitespace(q[0]) then [] else [q[0]]) + RemoveWhitespace(q[1..])
  }

  /** The concatenation of a list of words. */
  function ConcatAll(words: seq<string>): string {
    if words == [] then [] else words[0] + ConcatAll(words[1..])
  }

  /** The words joined with single spaces. */
  function Join(words: seq<string>): string {
    if words == [] then []
    else if |words| == 1 then words[0]
    else words[0] + [' '] + Join(words[1..])
  }

  predicate NoWhitespace(w: string) {
    forall c :: c in w ==> !IsWhitespace(c)
  }

  lemma {:induction false} SplitPiecesNoWhitespace(q: string)
    ensures forall p :: p in SplitOnWhitespace(q) ==> NoWhitespace(p)
  {
    if q != [] {
      SplitPiecesNoWhitespace(q[1..]);
      var rest := SplitOnWhitespace(q[1..]);
      assert forall p :: p in rest[1..] ==> p in rest;
      assert rest[0] in rest;
    }
  }

  lemma {:induction false} NonEmptyMembers(pieces: seq<string>)
    ensures forall w :: w in NonEmpty(pieces) <==> w in pieces && w != []
  {
    if pieces != [] {
      NonEmptyMembers(pieces[1..]);
      assert pieces == [pieces[0]] + pieces[1..];
    }
  }

  /** No keyword is empty and no keyword contains white space. */
  lemma KeywordsWellFormed(query: string)
    ensures forall w :: w in Keywords(query) ==> w != [] && NoWhitespace(w)
  {
    SplitPiecesNoWhitespace(query);
    NonEmptyMembers(SplitOnWhitespace(query));
  }

  lemma {:induction false} SplitConcat(q: string)
    ensures ConcatAll(SplitOnWhitespace(q)) == RemoveWhitespace(q)
  {
    if q != [] {
      SplitConcat(q[1..]);
      var rest := SplitOnWhitespace(q[1..]);
      if !IsWhitespace(q[0]) {
        var r := [[q[0]] + rest[0]] + rest[1..];
        assert r[1..] == rest[1..];
        assert ConcatAll(rest) == rest[0] + ConcatAll(rest[1..]);
      } else if !(|q| > 1 && IsWhitespace(q[1])) {
        assert ([[]] + rest)[1..] == rest;
      }
    }
  }

  lemma {:induction false} NonEmptyConcat(pieces: seq<string>)
    ensures ConcatAll(NonEmpty(pieces)) == ConcatAll(pieces)
  {
    if pieces != [] {
      NonEmptyConcat(pieces[1..]);
      var head := if pieces[0] == [] then [] else [pieces[0]];
      ConcatAllAppend(head, NonEmpty(pieces[1..]));
      if head != [] {
        assert head[1..] == [];
      }
    }
  }

  lemma {:induction false} ConcatAllAppend(a: seq<string>, b: seq<string>)
    ensures ConcatAll(a + b) == ConcatAll(a) + ConcatAll(b)
  {
    if a == [] {
      assert a + b == b;
    } else {
      assert (a + b)[1..] == a[1..] + b;
      ConcatAllAppend(a[1..], b);
    }
  }

  /** The keywords, concatenated, are the query with its white space taken
      out, characters in their original order. */
  lemma KeywordsConcat(query: string)
    ensures ConcatAll(Keywords(query)) == RemoveWhitespace(query)
  {
    SplitConcat(query);
    NonEmptyConcat(SplitOnWhitespace(query));
  }

  lemma {:induction false} RemoveWhitespaceEmpty(q: string)
    ensures RemoveWhitespace(q) == [] <==> forall c :: c in q ==> IsWhitespace(c)
  {
    if q != [] {
      RemoveWhitespaceEmpty(q[1..]);
      assert forall c :: c in q <==> c == q[0] || c in q[1..];
    }
  }

  lemma {:induction false} ConcatAllEmpty(words: seq<string>)
    requires forall w :: w in words ==> w != []
    ensures ConcatAll(words) == [] <==> words == []
  {
    if words != [] {
      assert words[0] in words;
    }
  }

  /** An empty or all-white-space query, and only such a query, gives no
      keywords. */
  lemma KeywordsEmpty(query: string)
    ensures Keywords(query) == [] <==> forall c :: c in query ==> IsWhitespace(c)
  {
    KeywordsConcat(query);
    KeywordsWellFormed(query);
    ConcatAllEmpty(Keywords(query));
    RemoveWhitespaceEmpty(query);
  }

  /** Splitting a string that starts with a word glues the word onto the
      first piece of the rest. */
  lemma {:induction false} SplitAfterWord(w: string, s: string)
    requires NoWhitespace(w)
    ensures SplitOnWhitespace(w + s) ==
      [w + SplitOnWhitespace(s)[0]] + SplitOnWhitespace(s)[1..]
  {
    if w == [] {
      assert w + s == s;
      var r := SplitOnWhitespace(s);
      assert w + r[0] == r[0];
      assert r == [r[0]] + r[1..];
    } else {
      assert w[0] in w;
      assert (w + s)[1..] == w[1..] + s;
      assert forall c :: c in w[1..] ==> c in w;
      SplitAfterWord(w[1..], s);
      assert [w[0]] + (w[1..] + SplitOnWhitespace(s)[0]) == w + SplitOnWhitespace(s)[0];
    }
  }

  lemma {:induction false} JoinStartsWithFirst(words: seq<string>)
    requires words != []
    ensures |Join(words)| >= |words[0]| && Join(words)[..|words[0]|] == words[0]
  {
    if |words| > 1 {
      assert Join(words) == words[0] + ([' '] + Join(words[1..]));
    }
  }

  /** Tokenising keywords joined by single spaces gives the keywords back. */
  lemma {:induction false} KeywordsOfJoin(words: seq<string>)
    requires forall w :: w in words ==> w != [] && NoWhitespace(w)
    ensures Keywords(Join(words)) == words
  {
    if words == [] {
      assert SplitOnWhitespace([]) == [[]];
    } else if |words| == 1 {
      var w := words[0];
      assert w in words;
      assert w + [] == w;
      SplitAfterWord(w, []);
      assert SplitOnWhitespace(w) == [w];
      assert NonEmpty([w]) == [w] + NonEmpty([]);
    } else {
      var w, rest := words[0], words[1..];
      assert w in words;
      assert forall x :: x in rest ==> x in words;
      var j := Join(rest);
      JoinStartsWithFirst(rest);
      assert rest[0] in words && rest[0][0] in rest[0];
      assert j[0] == rest[0][0];
      var s := [' '] + j;
      assert s[1..] == j;
      assert SplitOnWhitespace(s) == [[]] + SplitOnWhitespace(j);
      assert Join(words) == w + s;
      SplitAfterWord(w, s);
      assert w + [] == w;
      assert SplitOnWhitespace(Join(words)) == [w] + SplitOnWhitespace(j);
      KeywordsOfJoin(rest);
      assert ([w] + SplitOnWhitespace(j))[1..] == SplitOnWhitespace(j);
    }
  }

  // ---------------------------------------------------------------------
  // Searching for a query

  /** `new TabMatcher(tabs).search(query.split(/\s+/).filter(Boolean))`. */
  method SearchQuery(tabs: seq<Tab>, query: string) returns (result: seq<Entry>)
    ensures result == SearchResult(tabs, Keywords(query))
    ensures (forall c :: c in query ==> IsWhitespace(c)) ==> result == []
    ensures forall e, s :: e in result && (s in e.titleMatches || s in e.urlMatches) ==> s.start < s.end
  {
    var matcher := new TabMatcher(tabs);
    result := matcher.Search(Keywords(query));
    KeywordsEmpty(query);
    SearchResultEmpty(tabs, Keywords(query));
    KeywordsWellFormed(query);
    NonEmptyKeywordSpans(tabs, Keywords(query));
  }
}
