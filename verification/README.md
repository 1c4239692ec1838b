# chrome-quick-jump: the tab matcher and the highlighter

The extension opens a picker over the current page. The user types a query
and jumps to an open tab whose title or URL contains the typed words. This
project models the logic behind that picker and proves properties of it:

- **The matcher** (`src/TabMatcher.tsx`, module `Matcher` in `matcher.dfy`).
  `TabMatcher.search` takes the open tabs (id, title, URL) and a list of
  keywords. For each tab and each keyword it runs a case-sensitive, literal
  `indexOf` on the title and on the URL. It records the `[start, end)` span
  of the first occurrence, and keeps the tabs that got at least one span.
  - `search` also builds a ranking by "coverage", the total length of the
    recorded spans. It does this by sorting and reversing a *filtered copy*
    of the result, and that copy is then discarded. The array that
    `search` returns is therefore in the order of the input tabs.
  - The model reproduces this. `TabMatcher.Search` runs the ranking on a
    fresh array (`SortBy`, `Reverse`) and returns the unranked result.
    `ReturnedOrderIgnoresCoverage` exhibits a search whose result is not
    in coverage order.
- **The highlighter** (`mark` in `src/App.tsx`, module `App` in `app.dfy`).
  It cuts a title or URL into plain segments and highlighted segments,
  driven by a cursor that moves over the spans.
- **The query tokenisation** (`query.split(/\s+/).filter(Boolean)` in
  `src/App.tsx`).
- **The two JavaScript string operations** both parts rely on (module
  `JsString` in `js_string.dfy`):
  - `indexOf` gives the first occurrence, or -1 when there is none. The
    empty word occurs at 0.
  - `substring` clamps its bounds to the string, and swaps them when they
    are out of order.

Strings are `string` (`seq<char>`). A Dafny `char` is a Unicode scalar
value, not a UTF-16 code unit, so span indices count characters (see
"## Left out").

Tabs, spans and entries are datatype values. This loses nothing, because
nothing mutates an entry after it is pushed. An entry's span arrays are
filled while the entry is being built, before it is pushed onto `result`.
The filtered copy at `src/TabMatcher.tsx:39` holds the same entry objects,
but the sort and the reverse move only references, and they move them in
the copy. The matcher is a class whose only field, `tabs`, is set by the
constructor and never changes. `Search` has no `modifies` clause, so it
provably leaves the stored tabs untouched.

Three consequences of the code are worth stating, because a reader might
expect otherwise:

- The ranking code at `src/TabMatcher.tsx:38-45` computes a coverage
  order. However, the array it sorts and reverses is a copy made by
  `filter`, and `result` is returned unsorted at line 47. So the results
  come back in input-tab order (`SearchResultIndices`,
  `ReturnedOrderIgnoresCoverage`).
- `indexOf` is case-sensitive. The keyword "git" records no span in the
  title "Git", but does record the span [8, 11) in the URL
  `https://github.com` (`CaseSensitiveMatch`).
- The keyword loop pushes one span per keyword token. A keyword given
  twice records its span twice (`DuplicateKeywordRepeatsSpan`,
  `FieldMatchesAppend`).

## Model

| member | source | states |
|---|---|---|
| JsString.IndexOf | src/TabMatcher.tsx:22 | `text.indexOf(word)` is -1, or an index at which `word` fits inside `text` |
| JsString.IndexOfFrom | src/TabMatcher.tsx:22 | the search from `from` gives -1 or an index at or after `from` where `word` fits |
| JsString.IndexOfFromFirst | src/TabMatcher.tsx:22 | the search from `from` returns the first occurrence at or after `from`, or -1 exactly when there is none from there |
| JsString.IndexOfFirst | src/TabMatcher.tsx:22-23 | `indexOf` is -1 iff `word` does not occur; otherwise `word` occurs there and at no lower index |
| JsString.Clamp | src/App.tsx:21 | a `substring` bound is forced into [0, length], and is unchanged when already inside |
| JsString.Substring | src/App.tsx:21-23 | `substring(a, b)` is `text[a..b)` for in-bounds ordered bounds, `text[b..a)` when they are swapped, and never longer than `text` |
| JsString.SubstringFrom | src/App.tsx:27 | `substring(a)` is the suffix from `a`; the whole string for negative `a`; empty past the end |
| Matcher.HasMatch | src/TabMatcher.tsx:33 | definition (no contract): the keep condition, a title span or a URL span; characterised by `HasMatchIff` |
| Matcher.WordMatch | src/TabMatcher.tsx:22-30 | definition (no contract): the span one keyword pushes in one field, the `indexOf` span or nothing; characterised by `WordMatchFirst` |
| Matcher.FieldMatches | src/TabMatcher.tsx:21-30 | definition (no contract): the spans the keyword loop pushes for one field, in keyword order; characterised by `FieldMatchesFollowKeywords`, `SpansLocateKeywords`, `FieldMatchesNonEmpty` and `FieldMatchesAppend`, and built by `MatchTab` |
| Matcher.EntryFor | src/TabMatcher.tsx:20-31 | definition (no contract): the entry one tab gets, the URL spans and title spans of the keywords; built by `MatchTab`, kept iff `HasMatchIff` holds |
| Matcher.SearchResult | src/TabMatcher.tsx:17-47 | definition (no contract): the entries of the tabs that have a match, in tab order; what `TabMatcher.Search` returns, characterised by `SearchResultIndices`, `InResultIff` and `SearchResultEmpty` |
| Matcher.Covered | src/TabMatcher.tsx:43-44 | definition (no contract): the `reduce` sum of `end - start` over a list of spans; characterised by `CoveredFieldMatches` |
| Matcher.Coverage | src/TabMatcher.tsx:42-44 | definition (no contract): the ranking score, URL coverage plus title coverage; characterised by `EntryCoverage` |
| Matcher.FirstSpan | src/TabMatcher.tsx:22-24 | the span recorded for a word that occurs covers that word, has the word's length, and no occurrence starts earlier |
| Matcher.WordMatchFirst | src/TabMatcher.tsx:22-30 | one keyword records exactly the span of its first occurrence when it occurs, and nothing otherwise |
| Matcher.FieldMatchesFollowKeywords | src/TabMatcher.tsx:21-30 | a field's spans are, one for one and in keyword order, the first occurrences of the keywords that occur; there are at most as many spans as keywords |
| Matcher.FoundKeywordsMembers | src/TabMatcher.tsx:21-30 | a word is among those that record a span iff it is a keyword and occurs in the field |
| Matcher.FieldMatchesAppend | src/TabMatcher.tsx:21-30 | spans come in keyword-list order: splitting the keyword list splits the spans the same way |
| Matcher.DuplicateKeywordRepeatsSpan | src/TabMatcher.tsx:21-30 | a keyword given twice records its span twice (two spans when it occurs) |
| Matcher.SpansLocateKeywords | src/TabMatcher.tsx:22-29 | every span is in bounds (`0 <= start <= end <= length`), covers a keyword, and starts at that keyword's first occurrence |
| Matcher.FieldMatchesNonEmpty | src/TabMatcher.tsx:21-33 | a field records some span iff some keyword is a substring of it |
| Matcher.HasMatchIff | src/TabMatcher.tsx:19-35 | a tab's entry is kept iff some keyword is a substring of its title or of its URL |
| Matcher.Entries | src/TabMatcher.tsx:19-31 | definition: the `EntryFor` of each tab, in tab order (its ensures only spells out the comprehension, as a proof aid). That the keyword loop builds this entry is `MatchTab`'s ensures; how the result relates to it is `SearchResultIndices` |
| Matcher.KeepMatched | src/TabMatcher.tsx:39-41 | the filter keeps only entries that have a span, and only entries of its input |
| Matcher.KeepMatchedAt | src/TabMatcher.tsx:33-35 | kept entry k is the input entry at the k-th recorded position |
| Matcher.MatchedIndicesExact | src/TabMatcher.tsx:33-35 | the recorded positions increase, and a position is recorded iff its entry has a span |
| Matcher.MatchedIndicesBound | src/TabMatcher.tsx:33-35 | every recorded position is a position of the input |
| Matcher.SearchResultEntries | src/TabMatcher.tsx:33-35 | every returned entry has a title or URL span, wraps one of the input tabs, and is that tab's entry |
| Matcher.SearchResultIndices | src/TabMatcher.tsx:18-47 | the result is exactly the entries of the qualifying tabs in their original relative order: entry k comes from tab `idx[k]`, the indices strictly increase, and a tab index is used iff its entry has a span |
| Matcher.InResultIff | src/TabMatcher.tsx:19-35 | a tab appears in the result iff it is one of the tabs and some keyword occurs in its title or its URL |
| Matcher.KeepMatchedNone | src/TabMatcher.tsx:33-35 | when no entry has a span, nothing is kept |
| Matcher.SearchResultEmpty | src/TabMatcher.tsx:17-36 | an empty keyword list, or an empty tab list, gives an empty result |
| Matcher.EmptyKeywordMatchesAll | src/TabMatcher.tsx:22-29 | the empty keyword matches every tab, with a zero-length span at 0 in both title and URL |
| Matcher.NonEmptyKeywordSpans | src/TabMatcher.tsx:22-29 | with no empty keyword, every span in the result has `start < end` |
| Matcher.CoveredFieldMatches | src/TabMatcher.tsx:42-44 | a field's summed span lengths equal the total length of the keywords found in it |
| Matcher.TotalLengthPositive | src/TabMatcher.tsx:42-44 | with no empty keyword, the total length of found keywords is positive iff some were found |
| Matcher.EntryCoverage | src/TabMatcher.tsx:42-44 | an entry's coverage is the length of the keywords found in its URL plus in its title; with no empty keyword it is positive iff the entry is kept |
| Matcher.NoOccurrenceBefore | src/TabMatcher.tsx:22 | a word cannot occur before `hi` if its first character does not appear there |
| Matcher.CaseSensitiveMatch | src/TabMatcher.tsx:19-35 | title "Git", URL "https://github.com", keyword "git": one entry, URL span [8, 11), no title span |
| Matcher.GitTitle | src/TabMatcher.tsx:22-25 | "git" records no span in the title "Git" |
| Matcher.GitUrl | src/TabMatcher.tsx:27-30 | "git" records the span [8, 11) in "https://github.com" |
| Matcher.ReturnedOrderIgnoresCoverage | src/TabMatcher.tsx:38-47 | with tabs titled "a" and "ab" and keywords "a" and "ab", the result is in tab order although the first entry covers 1 character and the second 3 |
| Matcher.ExampleEntries | src/TabMatcher.tsx:19-31 | the entries and coverages of the two tabs of that example |
| Matcher.ExampleFieldA | src/TabMatcher.tsx:21-30 | keywords "a", "ab" record [0, 1) in "a" |
| Matcher.ExampleFieldAB | src/TabMatcher.tsx:21-30 | keywords "a", "ab" record [0, 1) and [0, 2) in "ab" |
| Matcher.ExampleFieldU | src/TabMatcher.tsx:21-30 | keywords "a", "ab" record nothing in "u" |
| Matcher.FieldMatchesStep | src/TabMatcher.tsx:21-30 | one more keyword appends its own span, if any, to a field's spans |
| Matcher.SearchResultStep | src/TabMatcher.tsx:19-35 | one more tab appends its entry, if it has a span, to the result |
| Matcher.SortBy | src/TabMatcher.tsx:9-11 | `sortBy` leaves the array ascending by the key and a permutation of the original |
| Matcher.InsertAt | src/TabMatcher.tsx:9-11 | one insertion step extends the sorted prefix by one element, leaves the elements after it as they were, and keeps the array a permutation |
| Matcher.Swap | src/TabMatcher.tsx:9-11 | exchanges two elements, changes nothing else, and keeps the array a permutation |
| Matcher.Reverse | src/TabMatcher.tsx:45 | `reverse()` puts the element from position `n-1-k` at position `k` |
| Matcher.MatchTab | src/TabMatcher.tsx:20-31 | the keyword loop for one tab builds exactly that tab's entry: the title and URL spans of the keywords found, in keyword order |
| Matcher.TabMatcher.constructor | src/TabMatcher.tsx:15 | the matcher stores the given tabs |
| Matcher.TabMatcher.Search | src/TabMatcher.tsx:17-48 | `search` returns exactly the entries of the qualifying tabs in tab order, each with a span and wrapping one of the stored tabs; the ranked copy does not affect it |
| App.Cursor | src/App.tsx:17-24 | definition (no contract): the cursor `t` after the loop has processed the spans, the end of the last one or 0; the invariant of `Mark`'s loop |
| App.Gap | src/App.tsx:20-22 | definition (no contract): the plain segment pushed before a span, only when `t < start`; its text is given by `PieceTexts` |
| App.Tail | src/App.tsx:26-28 | definition (no contract): the plain segment pushed after the loop, only when `t < length` |
| App.Pieces | src/App.tsx:17-25 | definition (no contract): the segments the loop pushes for the spans, gap then highlighted span for each; the invariant of `Mark`'s loop, characterised by `PiecesCover`, `PiecesHighlightSpans`, `PiecesGapsNonEmpty` and `PiecesSize` |
| App.MarkSegments | src/App.tsx:17-29 | definition (no contract): the loop's segments followed by the tail |
| App.MarkOf | src/App.tsx:11-30 | definition (no contract): what `mark` returns, the string itself for no spans and the segments otherwise; computed by `Mark`, characterised by `MarkRoundTrip`, `MarkHighlightsSpans`, `MarkGapsNonEmpty` and `MarkSize` |
| App.Mark | src/App.tsx:11-30 | `mark` returns the string itself for no spans, and otherwise the segments of the cursor loop; for in-bounds ordered spans they spell out the string |
| App.PiecesCover | src/App.tsx:17-25 | with in-bounds ordered spans, the segments pushed so far spell out the string up to the cursor, and the cursor stays inside the string |
| App.PieceTexts | src/App.tsx:20-23 | the gap segment spells out the text between the cursor and the span, and the highlighted segment spells out the span |
| App.MarkRoundTrip | src/App.tsx:11-29 | with in-bounds spans, sorted and non-overlapping, the segments concatenate back to the input; no spans return the input unchanged |
| App.MarkHighlightsSpans | src/App.tsx:19-24 | the highlighted segments are exactly one per span, in span order, each being `substring(start, end)`, which is `str[start..end)` for in-bounds spans |
| App.SpanTextsAt | src/App.tsx:23 | the k-th span text is `substring(start, end)` of the k-th span |
| App.PiecesHighlightSpans | src/App.tsx:19-25 | the highlighted segments the loop pushes are the span texts in span order |
| App.PiecesMatchedStep | src/App.tsx:20-24 | one more span adds exactly its own text to the highlighted segments |
| App.MarkGapsNonEmpty | src/App.tsx:20-28 | with in-bounds spans no plain segment is empty: a gap only when `t < start`, the tail only when `t < length` |
| App.PiecesGapsNonEmpty | src/App.tsx:19-25 | with in-bounds spans every plain segment pushed in the loop is non-empty, and the cursor stays inside the string |
| App.MarkSize | src/App.tsx:17-28 | there are at least as many segments as spans and at most twice as many plus one |
| App.PiecesSize | src/App.tsx:19-25 | the loop pushes between one and two segments per span |
| App.SingleKeywordRoundTrip | src/App.tsx:40-41 | highlighting the spans of a single keyword gives the field back |
| App.OverlappingKeywordsRepeatText | src/App.tsx:19-29 | overlapping keywords break the round trip: "ab" with keywords "ab" and "b" gives spans [0, 2), [1, 2), which display as "abb" |
| App.OverlappingSpans | src/TabMatcher.tsx:21-30 | keywords "ab", "b" record [0, 2) and [1, 2) in "ab" |
| App.OverlappingRendering | src/App.tsx:19-29 | the spans [0, 2), [1, 2) over "ab" display as "abb" |
| App.IsWhitespace | src/App.tsx:73 | definition (no contract): the characters `\s` matches, ECMAScript white space and line terminators |
| App.NonEmpty | src/App.tsx:73 | definition (no contract): `.filter(Boolean)`, which drops the empty strings; characterised by `NonEmptyMembers` and `NonEmptyConcat` |
| App.Keywords | src/App.tsx:73 | definition (no contract): `query.split(/\s+/).filter(Boolean)`; characterised by `KeywordsWellFormed`, `KeywordsConcat`, `KeywordsEmpty` and `KeywordsOfJoin` |
| App.SplitOnWhitespace | src/App.tsx:73 | `split(/\s+/)` always yields at least one piece |
| App.SplitPiecesNoWhitespace | src/App.tsx:73 | no piece of the split contains white space |
| App.NonEmptyMembers | src/App.tsx:73 | `filter(Boolean)` keeps exactly the non-empty pieces |
| App.KeywordsWellFormed | src/App.tsx:73 | no keyword is empty and no keyword contains white space |
| App.SplitConcat | src/App.tsx:73 | the pieces of the split, concatenated, are the query without its white space |
| App.NonEmptyConcat | src/App.tsx:73 | dropping empty pieces does not change their concatenation |
| App.KeywordsConcat | src/App.tsx:73 | the keywords, concatenated, are the query with all white space removed, in order |
| App.RemoveWhitespaceEmpty | src/App.tsx:73 | nothing is left after removing white space iff the query is all white space |
| App.ConcatAllEmpty | src/App.tsx:73 | non-empty words concatenate to nothing iff there are none |
| App.KeywordsEmpty | src/App.tsx:73 | the query gives no keywords iff it is empty or all white space |
| App.SplitAfterWord | src/App.tsx:73 | a leading word without white space is glued onto the first piece of the rest |
| App.JoinStartsWithFirst | src/App.tsx:73 | words joined by spaces start with the first word |
| App.KeywordsOfJoin | src/App.tsx:73 | tokenising non-empty, white-space-free words joined by single spaces gives the words back |
| App.SearchQuery | src/App.tsx:72-73 | searching a query searches its keywords; a blank query gives no result; every span returned is non-empty |

## Left out

- Rendering is not modelled: React and Blueprint components, `itemRenderer`, the JSX `key`s of the segments, and the favicon. `mark` returns a list of (highlighted, text) segments instead of React nodes.
- The `App` component's state hooks, memoisation, effects and focus timing are not modelled. They are UI lifecycle; `SearchQuery` stands for the memoised search at line 73.
- The `./env` module (extension messaging, storage, jumping to a tab) is not part of this model.
- `fuseOptions` is not modelled: it configures a library that is never called.
- App.Mark: the `matches == null` branch is not modelled, because a Dafny sequence cannot be null; the empty-list branch is.
- App.MarkGapsNonEmpty: it holds only for in-bounds spans. With a span past the end, `substring` clamps and a plain segment can be empty. Spans from the matcher are always in bounds (`SpansLocateKeywords`).
- Matcher.SortBy: the engine's sort algorithm, and the stability of `Array.prototype.sort`, are not modelled. Any ascending order is accepted. Its outcome is discarded anyway.
- Tabs carry only the id, title and URL. The other fields of a browser tab are not read by the matcher.
- Matcher.Tab always has a title and a URL. In a browser tab both fields are optional, and `search` calls `indexOf` on them unguarded (`src/TabMatcher.tsx:22`, `27`). So a tab without a title or a URL makes `search` throw a TypeError. That error path is not modelled.
- Span indices count the model's characters, which are Unicode scalar values. JavaScript counts UTF-16 code units. The two agree only for text inside the Basic Multilingual Plane. For a title containing an astral character, such as most emoji, each index after it is lower in the model than in JavaScript, by one for each such character before it. For example, `"😀 git".indexOf("git")` is 3 in JavaScript and 2 in the model. Lone surrogates cannot be written at all.
- App.IsWhitespace lists the ECMAScript white space and line terminator characters as of current Unicode. The proofs do not depend on which characters it contains.
