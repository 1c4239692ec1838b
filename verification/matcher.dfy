/** The tab matcher: exact, case-sensitive substring search of a list of
    keywords in the titles and URLs of the open tabs. */
module Matcher {
  import opened JsString

  /** An open browser tab, as far as the matcher reads it. */
  datatype Tab = Tab(id: int, title: string, url: string)

  /** A half-open range [start, end) of a title or a URL. */
  datatype Span = Span(start: int, end: int)

  /** A tab together with the spans recorded in its URL and in its title. */
  datatype Entry = Entry(tab: Tab, urlMatches: seq<Span>, titleMatches: seq<Span>)

  /** An entry is kept when at least one keyword was found in one of its fields. */
  predicate HasMatch(e: Entry) {
    |e.titleMatches| > 0 || |e.urlMatches| > 0
  }

  /** The span of the first occurrence of `word` in `text`. */
  function FirstSpan(text: string, word: string): (s: Span)
    requires Contains(text, word)
    ensures OccursAt(text, word, s.start) && s.end == s.start + |word|
    ensures forall j :: 0 <= j < s.start ==> !OccursAt(text, word, j)
  {
    IndexOfFirst(text, word);
    var i := IndexOf(text, word);
    Span(i, i + |word|)
  }

  /** The spans the keyword loop records for one field: for each keyword in
      turn, the span of its first occurrence, when it occurs at all. */
  function FieldMatches(text: string, keywords: seq<string>): seq<Span>
  {
    if keywords == [] then []
    else FieldMatches(text, keywords[..|keywords| - 1]) + WordMatch(text, keywords[|keywords| - 1])
  }

  /** The span one keyword records in one field: none, or that of its first
      occurrence. */
  function WordMatch(text: string, word: string): seq<Span>
  {
    var idx := IndexOf(text, word);
    if idx != -1 then [Span(idx, idx + |word|)] else []
  }

  /** A keyword records the span of its first occurrence when it occurs, and
      nothing otherwise. */
  lemma WordMatchFirst(text: string, word: string)
    ensures Contains(text, word) ==> WordMatch(text, word) == [FirstSpan(text, word)]
    ensures !Contains(text, word) ==> WordMatch(text, word) == []
  {
    IndexOfFirst(text, word);
  }

  /** The keywords that occur in `text`, in keyword order, repeats kept. */
  function FoundKeywords(text: string, keywords: seq<string>): seq<string>
  {
    if keywords == [] then []
    else
      var word := keywords[|keywords| - 1];
      FoundKeywords(text, keywords[..|keywords| - 1]) + (if Contains(text, word) then [word] else [])
  }

  /** The entry built for one tab. */
  function EntryFor(tab: Tab, keywords: seq<string>): Entry {
    Entry(tab, FieldMatches(tab.url, keywords), FieldMatches(tab.title, keywords))
  }

  /** The entry built for each tab, in tab order. */
  function Entries(tabs: seq<Tab>, keywords: seq<string>): (r: seq<Entry>)
    ensures |r| == |tabs|
    ensures forall i :: 0 <= i < |tabs| ==> r[i] == EntryFor(tabs[i], keywords)
  {
    seq(|tabs|, i requires 0 <= i < |tabs| => EntryFor(tabs[i], keywords))
  }

  /** What `search` returns: the entries of the tabs that matched, in tab order. */
  function SearchResult(tabs: seq<Tab>, keywords: seq<string>): seq<Entry> {
    KeepMatched(Entries(tabs, keywords))
  }

  /** The positions of the entries that have a match, ascending. */
  function MatchedIndices(entries: seq<Entry>): seq<nat> {
    if entries == [] then []
    else
      var n := |entries| - 1;
      MatchedIndices(entries[..n]) + (if HasMatch(entries[n]) then [n] else [])
  }

  /** The positions in `tabs` of the tabs that produce an entry, ascending. */
  function SourceIndices(tabs: seq<Tab>, keywords: seq<string>): seq<nat> {
    MatchedIndices(Entries(tabs, keywords))
  }

  /** Total length of a list of spans. */
  function Covered(spans: seq<Span>): int {
    if spans == [] then 0
    else Covered(spans[..|spans| - 1]) + (spans[|spans| - 1].end - spans[|spans| - 1].start)
  }

  /** The ranking score: the matched length in the URL plus that in the title. */
  function Coverage(e: Entry): int {
    Covered(e.urlMatches) + Covered(e.titleMatches)
  }

  /** Total length of a list of words. */
  function TotalLength(words: seq<string>): nat {
    if words == [] then 0 else TotalLength(words[..|words| - 1]) + |words[|words| - 1]|
  }

  /** `entries.filter(e => e has a match)`. */
  function KeepMatched(entries: seq<Entry>): (r: seq<Entry>)
    ensures forall e :: e in r ==> e in entries && HasMatch(e)
  {
    if entries == [] then []
    else
      var e := entries[|entries| - 1];
      KeepMatched(entries[..|entries| - 1]) + (if HasMatch(e) then [e] else [])
  }

  // ---------------------------------------------------------------------
  // Spans of one field

  /** The spans of a field are, one for one and in order, the first
      occurrences of the keywords that occur in it; there are at most as many
      as there are keywords. */
  lemma {:induction false} FieldMatchesFollowKeywords(text: string, keywords: seq<string>)
    ensures |FieldMatches(text, keywords)| == |FoundKeywords(text, keywords)| <= |keywords|
    ensures forall k :: 0 <= k < |FoundKeywords(text, keywords)| ==>
      Contains(text, FoundKeywords(text, keywords)[k]) &&
      FieldMatches(text, keywords)[k] == FirstSpan(text, FoundKeywords(text, keywords)[k])
  {
    if keywords != [] {
      FieldMatchesFollowKeywords(text, keywords[..|keywords| - 1]);
      WordMatchFirst(text, keywords[|keywords| - 1]);
    }
  }

  /** A keyword is among the found ones exactly when it is a keyword and
      occurs in the text. */
  lemma {:induction false} FoundKeywordsMembers(text: string, keywords: seq<string>)
    ensures forall w :: w in FoundKeywords(text, keywords) <==> w in keywords && Contains(text, w)
  {
    if keywords != [] {
      var init := keywords[..|keywords| - 1];
      FoundKeywordsMembers(text, init);
      assert keywords == init + [keywords[|keywords| - 1]];
    }
  }

  /** Splitting the keyword list splits the spans the same way: spans come in
      keyword-list order, and a repeated keyword records its span again. */
  lemma {:induction false} FieldMatchesAppend(text: string, a: seq<string>, b: seq<string>)
    ensures FieldMatches(text, a + b) == FieldMatches(text, a) + FieldMatches(text, b)
  {
    if b == [] {
      assert a + b == a;
    } else {
      var init := b[..|b| - 1];
      assert (a + b)[..|a + b| - 1] == a + init;
      assert (a + b)[|a + b| - 1] == b[|b| - 1];
      FieldMatchesAppend(text, a, init);
    }
  }

  /** A keyword given twice records its span twice. */
  lemma DuplicateKeywordRepeatsSpan(text: string, word: string)
    ensures FieldMatches(text, [word, word]) == WordMatch(text, word) + WordMatch(text, word)
    ensures Contains(text, word) ==> |FieldMatches(text, [word, word])| == 2
  {
    FieldMatchesAppend(text, [word], [word]);
    assert [word] + [word] == [word, word];
    assert [word][..0] == [];
    WordMatchFirst(text, word);
  }

  /** Every span lies within the field, covers a keyword, and starts at that
      keyword's first occurrence. */
  lemma {:induction false} SpansLocateKeywords(text: string, keywords: seq<string>)
    ensures forall s :: s in FieldMatches(text, keywords) ==>
      0 <= s.start <= s.end <= |text| &&
      text[s.start..s.end] in keywords &&
      s.start == IndexOf(text, text[s.start..s.end])
  {
    if keywords != [] {
      var init := keywords[..|keywords| - 1];
      SpansLocateKeywords(text, init);
      assert forall w :: w in init ==> w in keywords;
      IndexOfFirst(text, keywords[|keywords| - 1]);
    }
  }

  /** A field records some span exactly when some keyword occurs in it. */
  lemma FieldMatchesNonEmpty(text: string, keywords: seq<string>)
    ensures |FieldMatches(text, keywords)| > 0 <==> exists w :: w in keywords && Contains(text, w)
  {
    FieldMatchesFollowKeywords(text, keywords);
    FoundKeywordsMembers(text, keywords);
    var found := FoundKeywords(text, keywords);
    if |found| > 0 {
      assert found[0] in found;
    }
  }

  // ---------------------------------------------------------------------
  // Which tabs are returned, and in what order

  /** A tab yields an entry exactly when some keyword is a substring of its
      title or of its URL. */
  lemma HasMatchIff(tab: Tab, keywords: seq<string>)
    ensures HasMatch(EntryFor(tab, keywords)) <==>
      exists w :: w in keywords && (Contains(tab.title, w) || Contains(tab.url, w))
  {
    FieldMatchesNonEmpty(tab.title, keywords);
    FieldMatchesNonEmpty(tab.url, keywords);
  }

  /** Every returned entry has a span, and is the entry of one of the tabs. */
  lemma SearchResultEntries(tabs: seq<Tab>, keywords: seq<string>)
    ensures forall e :: e in SearchResult(tabs, keywords) ==>
      HasMatch(e) && e.tab in tabs && e == EntryFor(e.tab, keywords)
  {
    var es := Entries(tabs, keywords);
    forall e | e in SearchResult(tabs, keywords)
      ensures HasMatch(e) && e.tab in tabs && e == EntryFor(e.tab, keywords)
    {
      var i :| 0 <= i < |es| && es[i] == e;
    }
  }

  /** The filter keeps the entries that have a match in their original
      order: kept entry k is entry MatchedIndices[k]. */
  lemma {:induction false} KeepMatchedAt(entries: seq<Entry>)
    ensures |MatchedIndices(entries)| == |KeepMatched(entries)|
    ensures forall k :: 0 <= k < |MatchedIndices(entries)| ==>
      MatchedIndices(entries)[k] < |entries| &&
      KeepMatched(entries)[k] == entries[MatchedIndices(entries)[k]]
  {
    if entries != [] {
      var n := |entries| - 1;
      var init := entries[..n];
      KeepMatchedAt(init);
      assert forall j :: 0 <= j < n ==> init[j] == entries[j];
    }
  }

  /** The positions of the matching entries increase, and an entry's
      position is among them exactly when the entry has a match. */
  lemma {:induction false} MatchedIndicesExact(entries: seq<Entry>)
    ensures forall k, l :: 0 <= k < l < |MatchedIndices(entries)| ==>
      MatchedIndices(entries)[k] < MatchedIndices(entries)[l]
    ensures forall j :: 0 <= j < |entries| ==>
      (j in MatchedIndices(entries) <==> HasMatch(entries[j]))
  {
    if entries != [] {
      var n := |entries| - 1;
      var init := entries[..n];
      MatchedIndicesExact(init);
      MatchedIndicesBound(init);
      var idx, before := MatchedIndices(entries), MatchedIndices(init);
      forall j | 0 <= j < |entries|
        ensures j in idx <==> HasMatch(entries[j])
      {
        if j < n {
          assert init[j] == entries[j];
          assert j in idx <==> j in before;
        }
      }
    }
  }

  /** Every recorded position is a position of the list. */
  lemma {:induction false} MatchedIndicesBound(entries: seq<Entry>)
    ensures forall k :: 0 <= k < |MatchedIndices(entries)| ==> MatchedIndices(entries)[k] < |entries|
  {
    if entries != [] {
      MatchedIndicesBound(entries[..|entries| - 1]);
    }
  }

  /** The result is exactly the entries of the qualifying tabs, in their
      original order: entry k comes from tab SourceIndices[k], the indices
      increase, and a tab is used exactly when it has a match. */
  lemma SearchResultIndices(tabs: seq<Tab>, keywords: seq<string>)
    ensures |SourceIndices(tabs, keywords)| == |SearchResult(tabs, keywords)|
    ensures forall k :: 0 <= k < |SourceIndices(tabs, keywords)| ==>
      SourceIndices(tabs, keywords)[k] < |tabs| &&
      SearchResult(tabs, keywords)[k] == EntryFor(tabs[SourceIndices(tabs, keywords)[k]], keywords)
    ensures forall k, l :: 0 <= k < l < |SourceIndices(tabs, keywords)| ==>
      SourceIndices(tabs, keywords)[k] < SourceIndices(tabs, keywords)[l]
    ensures forall j :: 0 <= j < |tabs| ==>
      (j in SourceIndices(tabs, keywords) <==> HasMatch(EntryFor(tabs[j], keywords)))
  {
    KeepMatchedAt(Entries(tabs, keywords));
    MatchedIndicesExact(Entries(tabs, keywords));
  }

  /** A tab appears in the result exactly when it is one of the tabs and some
      keyword is a substring of its title or of its URL. */
  lemma InResultIff(tabs: seq<Tab>, keywords: seq<string>, tab: Tab)
    ensures (exists e :: e in SearchResult(tabs, keywords) && e.tab == tab) <==>
      tab in tabs && exists w :: w in keywords && (Contains(tab.title, w) || Contains(tab.url, w))
  {
    var r := SearchResult(tabs, keywords);
    var idx := SourceIndices(tabs, keywords);
    SearchResultEntries(tabs, keywords);
    SearchResultIndices(tabs, keywords);
    HasMatchIff(tab, keywords);
    if tab in tabs && HasMatch(EntryFor(tab, keywords)) {
      var j :| 0 <= j < |tabs| && tabs[j] == tab;
      assert j in idx;
      var k :| 0 <= k < |idx| && idx[k] == j;
      assert r[k] in r && r[k].tab == tab;
    }
  }

  /** When no entry has a match, nothing is kept. */
  lemma KeepMatchedNone(entries: seq<Entry>)
    requires forall e :: e in entries ==> !HasMatch(e)
    ensures KeepMatched(entries) == []
  {
    var r := KeepMatched(entries);
    assert forall k :: 0 <= k < |r| ==> r[k] in r;
  }

  /** No keywords, or no tabs, give no entries. */
  lemma SearchResultEmpty(tabs: seq<Tab>, keywords: seq<string>)
    ensures SearchResult(tabs, []) == []
    ensures SearchResult([], keywords) == []
  {
    KeepMatchedNone(Entries(tabs, []));
    assert Entries([], keywords) == [];
  }

  /** The empty keyword occurs at index 0 of every string, so it gives every
      tab an entry with a zero-length span at 0 in both fields. */
  lemma EmptyKeywordMatchesAll(tab: Tab, keywords: seq<string>)
    requires "" in keywords
    ensures HasMatch(EntryFor(tab, keywords))
    ensures Span(0, 0) in EntryFor(tab, keywords).titleMatches
    ensures Span(0, 0) in EntryFor(tab, keywords).urlMatches
  {
    EmptyKeywordSpan(tab.title, keywords);
    EmptyKeywordSpan(tab.url, keywords);
  }

  lemma EmptyKeywordSpan(text: string, keywords: seq<string>)
    requires "" in keywords
    ensures Span(0, 0) in FieldMatches(text, keywords)
  {
    assert OccursAt(text, "", 0);
    FieldMatchesFollowKeywords(text, keywords);
    FoundKeywordsMembers(text, keywords);
    var found := FoundKeywords(text, keywords);
    var k :| 0 <= k < |found| && found[k] == "";
    assert FieldMatches(text, keywords)[k] == Span(0, 0);
  }

  /** With no empty keyword, every recorded span is non-empty. */
  lemma NonEmptyKeywordSpans(tabs: seq<Tab>, keywords: seq<string>)
    requires forall w :: w in keywords ==> w != ""
    ensures forall e, s :: e in SearchResult(tabs, keywords) && (s in e.titleMatches || s in e.urlMatches) ==>
      s.start < s.end
  {
    SearchResultEntries(tabs, keywords);
    forall e | e in SearchResult(tabs, keywords)
      ensures forall s :: s in e.titleMatches || s in e.urlMatches ==> s.start < s.end
    {
      SpansLocateKeywords(e.tab.title, keywords);
      SpansLocateKeywords(e.tab.url, keywords);
    }
  }

  // ---------------------------------------------------------------------
  // The coverage score

  lemma {:induction false} CoveredFieldMatches(text: string, keywords: seq<string>)
    ensures Covered(FieldMatches(text, keywords)) == TotalLength(FoundKeywords(text, keywords))
  {
    if keywords != [] {
      var init, word := keywords[..|keywords| - 1], keywords[|keywords| - 1];
      CoveredFieldMatches(text, init);
      CoveredAppend(FieldMatches(text, init), WordMatch(text, word));
      WordMatchFirst(text, word);
      var m := WordMatch(text, word);
      if Contains(text, word) {
        assert m[..0] == [];
        var found := FoundKeywords(text, keywords);
        assert found[..|found| - 1] == FoundKeywords(text, init);
      } else {
        assert m == [];
        assert FieldMatches(text, keywords) == FieldMatches(text, init) + m;
        assert Covered(FieldMatches(text, keywords)) == Covered(FieldMatches(text, init));
        assert FoundKeywords(text, keywords) == FoundKeywords(text, init) + [];
        assert FoundKeywords(text, keywords) == FoundKeywords(text, init);
      }
    }
  }

  lemma {:induction false} CoveredAppend(x: seq<Span>, y: seq<Span>)
    ensures Covered(x + y) == Covered(x) + Covered(y)
  {
    if y == [] {
      assert x + y == x;
    } else {
      assert (x + y)[..|x + y| - 1] == x + y[..|y| - 1];
      CoveredAppend(x, y[..|y| - 1]);
    }
  }

  lemma {:induction false} TotalLengthPositive(words: seq<string>)
    requires forall w :: w in words ==> w != ""
    ensures TotalLength(words) > 0 <==> words != []
  {
    if words != [] {
      assert words[|words| - 1] in words;
    }
  }

  /** The coverage of a tab's entry is the total length of the keywords found
      in its URL plus that of those found in its title; with no empty
      keyword it is positive exactly when the entry has a match. */
  lemma EntryCoverage(tab: Tab, keywords: seq<string>)
    ensures Coverage(EntryFor(tab, keywords)) ==
      TotalLength(FoundKeywords(tab.url, keywords)) + TotalLength(FoundKeywords(tab.title, keywords))
    ensures (forall w :: w in keywords ==> w != "") ==>
      (Coverage(EntryFor(tab, keywords)) > 0 <==> HasMatch(EntryFor(tab, keywords)))
  {
    CoveredFieldMatches(tab.url, keywords);
    CoveredFieldMatches(tab.title, keywords);
    FieldMatchesFollowKeywords(tab.url, keywords);
    FieldMatchesFollowKeywords(tab.title, keywords);
    if forall w :: w in keywords ==> w != "" {
      FoundKeywordsMembers(tab.url, keywords);
      FoundKeywordsMembers(tab.title, keywords);
      TotalLengthPositive(FoundKeywords(tab.url, keywords));
      TotalLengthPositive(FoundKeywords(tab.title, keywords));
    }
  }

  // ---------------------------------------------------------------------
  // Two concrete searches

  /** No occurrence of `word` can start before `hi` when its first character
      does not appear there. */
  lemma NoOccurrenceBefore(text: string, word: string, hi: nat)
    requires word != [] && hi <= |text| && word[0] !in text[..hi]
    ensures forall i :: 0 <= i < hi ==> !OccursAt(text, word, i)
    ensures hi == |text| ==> !Contains(text, word)
  {
    forall i | 0 <= i < hi
      ensures !OccursAt(text, word, i)
    {
      assert text[..hi][i] == text[i];
    }
  }

  /** Matching is case-sensitive: "git" does not match the title "Git"; in
      the URL it is found at its first occurrence, inside "github". */
  lemma CaseSensitiveMatch()
    ensures var tab := Tab(1, "Git", "https://github.com");
      SearchResult([tab], ["git"]) == [Entry(tab, [Span(8, 11)], [])]
  {
    var tab := Tab(1, "Git", "https://github.com");
    GitTitle();
    GitUrl();
    SearchResultEmpty([], ["git"]);
    SearchResultStep([tab], ["git"], 0);
    assert [tab][..1] == [tab] && [tab][..0] == [];
  }

  lemma GitTitle()
    ensures FieldMatches("Git", ["git"]) == []
  {
    assert "Git"[..3] == "Git";
    NoOccurrenceBefore("Git", "git", 3);
    IndexOfFirst("Git", "git");
    assert ["git"][..0] == [];
  }

  lemma GitUrl()
    ensures FieldMatches("https://github.com", ["git"]) == [Span(8, 11)]
  {
    var url := "https://github.com";
    assert url[8..11] == "git";
    assert url[..8] == "https://";
    NoOccurrenceBefore(url, "git", 8);
    IndexOfFirst(url, "git");
    assert IndexOf(url, "git") == 8;
    assert ["git"][..0] == [];
  }

  /** The returned order is the tab order, not the coverage order: here the
      first entry covers one character and the second three. */
  lemma ReturnedOrderIgnoresCoverage()
    ensures var tabs := [Tab(1, "a", "u"), Tab(2, "ab", "u")];
      var r := SearchResult(tabs, ["a", "ab"]);
      |r| == 2 && r[0].tab == tabs[0] && r[1].tab == tabs[1] && Coverage(r[0]) < Coverage(r[1])
  {
    var kws := ["a", "ab"];
    var tabs := [Tab(1, "a", "u"), Tab(2, "ab", "u")];
    ExampleEntries();
    SearchResultEmpty([], kws);
    SearchResultStep(tabs, kws, 0);
    SearchResultStep(tabs, kws, 1);
    assert tabs[..2] == tabs && tabs[..0] == [];
  }

  lemma ExampleEntries()
    ensures var kws := ["a", "ab"];
      var e1 := EntryFor(Tab(1, "a", "u"), kws);
      var e2 := EntryFor(Tab(2, "ab", "u"), kws);
      e1 == Entry(Tab(1, "a", "u"), [], [Span(0, 1)]) && HasMatch(e1) && Coverage(e1) == 1 &&
      e2 == Entry(Tab(2, "ab", "u"), [], [Span(0, 1), Span(0, 2)]) && HasMatch(e2) && Coverage(e2) == 3
  {
    ExampleFieldA();
    ExampleFieldAB();
    ExampleFieldU();
    assert [Span(0, 1), Span(0, 2)][..1] == [Span(0, 1)] && [Span(0, 1)][..0] == [];
  }

  lemma ExampleFieldA()
    ensures FieldMatches("a", ["a", "ab"]) == [Span(0, 1)]
  {
    var kws := ["a", "ab"];
    assert kws[..1] == ["a"] && kws[..1][..0] == [];
    assert OccursAt("a", "a", 0);
    assert !Contains("a", "ab");
    IndexOfFirst("a", "a");
    IndexOfFirst("a", "ab");
  }

  lemma ExampleFieldAB()
    ensures FieldMatches("ab", ["a", "ab"]) == [Span(0, 1), Span(0, 2)]
  {
    var kws := ["a", "ab"];
    assert kws[..1] == ["a"] && kws[..1][..0] == [];
    assert "ab"[0..1] == "a" && "ab"[0..2] == "ab";
    assert OccursAt("ab", "a", 0) && OccursAt("ab", "ab", 0);
    IndexOfFirst("ab", "a");
    IndexOfFirst("ab", "ab");
  }

  lemma ExampleFieldU()
    ensures FieldMatches("u", ["a", "ab"]) == []
  {
    var kws := ["a", "ab"];
    assert kws[..1] == ["a"] && kws[..1][..0] == [];
    assert "u"[..1] == "u";
    NoOccurrenceBefore("u", "a", 1);
    NoOccurrenceBefore("u", "ab", 1);
    IndexOfFirst("u", "a");
    IndexOfFirst("u", "ab");
  }

  // ---------------------------------------------------------------------
  // The imperative parts

  /** One more keyword adds its own span, if any, at the end. */
  lemma FieldMatchesStep(text: string, keywords: seq<string>, j: nat)
    requires j < |keywords|
    ensures FieldMatches(text, keywords[..j + 1]) == FieldMatches(text, keywords[..j]) + WordMatch(text, keywords[j])
  {
    assert keywords[..j + 1][..j] == keywords[..j];
  }

  /** One more tab adds its entry, if it has a match, at the end. */
  lemma SearchResultStep(tabs: seq<Tab>, keywords: seq<string>, i: nat)
    requires i < |tabs|
    ensures var entry := EntryFor(tabs[i], keywords);
      SearchResult(tabs[..i + 1], keywords) == SearchResult(tabs[..i], keywords) + (if HasMatch(entry) then [entry] else [])
  {
    var es := Entries(tabs[..i + 1], keywords);
    assert es[..i] == Entries(tabs[..i], keywords);
  }

  /** `sortBy(arr, key)`: sorts `a` in place, ascending by `key`. */
  method SortBy<T>(a: array<T>, key: T -> int)
    modifies a
    ensures forall i, j :: 0 <= i < j < a.Length ==> key(a[i]) <= key(a[j])
    ensures multiset(a[..]) == old(multiset(a[..]))
  {
    var i := 0;
    while i < a.Length
      invariant 0 <= i <= a.Length
      invariant forall p, q :: 0 <= p < q < i ==> key(a[p]) <= key(a[q])
      invariant multiset(a[..]) == old(multiset(a[..]))
    {
      InsertAt(a, i, key);
      i := i + 1;
    }
  }

  /** Moves `a[i]` down into the sorted prefix `a[..i]`. */
  method InsertAt<T>(a: array<T>, i: nat, key: T -> int)
    requires i < a.Length
    requires forall p, q :: 0 <= p < q < i ==> key(a[p]) <= key(a[q])
    modifies a
    ensures forall p, q :: 0 <= p < q <= i ==> key(a[p]) <= key(a[q])
    ensures forall k :: i < k < a.Length ==> a[k] == old(a[k])
    ensures multiset(a[..]) == old(multiset(a[..]))
  {
    var j := i;
    while j > 0 && key(a[j - 1]) > key(a[j])
      invariant 0 <= j <= i
      invariant forall p, q :: 0 <= p < q <= i && p != j && q != j ==> key(a[p]) <= key(a[q])
      invariant forall q :: j < q <= i ==> key(a[j]) < key(a[q])
      invariant forall k :: i < k < a.Length ==> a[k] == old(a[k])
      invariant multiset(a[..]) == old(multiset(a[..]))
    {
      Swap(a, j - 1, j);
      j := j - 1;
    }
  }

  /** Exchanges two elements of `a`. */
  method Swap<T>(a: array<T>, i: nat, j: nat)
    requires i < j < a.Length
    modifies a
    ensures a[i] == old(a[j]) && a[j] == old(a[i])
    ensures forall k :: 0 <= k < a.Length && k != i && k != j ==> a[k] == old(a[k])
    ensures multiset(a[..]) == old(multiset(a[..]))
  {
    a[i], a[j] := a[j], a[i];
  }

  /** `arr.reverse()`: reverses `a` in place. */
  method Reverse<T>(a: array<T>)
    modifies a
    ensures forall k :: 0 <= k < a.Length ==> a[k] == old(a[a.Length - 1 - k])
  {
    var lo, hi := 0, a.Length - 1;
    while lo < hi
      invariant 0 <= lo && hi == a.Length - 1 - lo && lo <= a.Length - lo
      invariant forall k :: 0 <= k < lo || hi < k < a.Length ==> a[k] == old(a[a.Length - 1 - k])
      invariant forall k :: lo <= k <= hi ==> a[k] == old(a[k])
    {
      a[lo], a[hi] := a[hi], a[lo];
      lo, hi := lo + 1, hi - 1;
    }
  }

  /** The body of the loop over the tabs: tries every keyword on the title
      and on the URL and records the first occurrence of each one found. */
  method MatchTab(tab: Tab, keywords: seq<string>) returns (entry: Entry)
    ensures entry == EntryFor(tab, keywords)
  {
    var urlMatches, titleMatches := [], [];
    for j := 0 to |keywords|
      invariant titleMatches == FieldMatches(tab.title, keywords[..j])
      invariant urlMatches == FieldMatches(tab.url, keywords[..j])
    {
      var word := keywords[j];
      var idx1 := IndexOf(tab.title, word);
      if idx1 != -1 {
        titleMatches := titleMatches + [Span(idx1, idx1 + |word|)];
      }
      FieldMatchesStep(tab.title, keywords, j);
      assert titleMatches == FieldMatches(tab.title, keywords[..j + 1]);
      var idx2 := IndexOf(tab.url, word);
      if idx2 != -1 {
        urlMatches := urlMatches + [Span(idx2, idx2 + |word|)];
      }
      FieldMatchesStep(tab.url, keywords, j);
    }
    assert keywords[..|keywords|] == keywords;
    entry := Entry(tab, urlMatches, titleMatches);
  }

  /** The matcher, built once per tab list. */
  class TabMatcher {
    const tabs: seq<Tab>

    constructor(tabs: seq<Tab>)
      ensures this.tabs == tabs
    {
      this.tabs := tabs;
    }

    /** Returns the entries of the tabs in which some keyword occurs, in tab
        order. It changes no state: the ranked copy it builds is discarded. */
    method Search(keywords: seq<string>) returns (result: seq<Entry>)
      ensures result == SearchResult(tabs, keywords)
      ensures forall e :: e in result ==> HasMatch(e) && e.tab in tabs
    {
      result := [];
      for i := 0 to |tabs|
        invariant result == SearchResult(tabs[..i], keywords)
      {
        var tab := tabs[i];
        var entry := MatchTab(tab, keywords);
        if |entry.titleMatches| > 0 || |entry.urlMatches| > 0 {
          result := result + [entry];
        }
        SearchResultStep(tabs, keywords, i);
      }
      assert tabs[..|tabs|] == tabs;

      // The ranking: a filtered copy sorted by coverage and reversed, best
      // first. The copy is a fresh array; `result` is returned as it is.
      var kept := KeepMatched(result);
      var ranked := new Entry[|kept|](k requires 0 <= k < |kept| => kept[k]);
      SortBy(ranked, Coverage);
      Reverse(ranked);

      SearchResultEntries(tabs, keywords);
    }
  }
}
