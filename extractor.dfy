/** The marker scan of drcleaner.py: `SOURCE_PATTERN.finditer(content)` with the
    pattern `\(\[([^\]]+)\]\(([^\)]+)\)\)`, that is, markers `([display](url))` whose
    display text is non-empty without `]` and whose url is non-empty without `)`. */
module Extractor {

  datatype Option<T> = None | Some(value: T)

  /** One match of the pattern: the span `[start, end)` and the two groups. */
  datatype Match = Match(start: nat, end: nat, display: string, url: string)

  /** The text a marker with this display and url occupies in the document. */
  function MarkerText(display: string, url: string): string {
    "([" + display + "](" + url + "))"
  }

  /** Group 1, `[^\]]+`. */
  predicate ValidDisplay(display: string) {
    display != [] && ']' !in display
  }

  /** Group 2, `[^\)]+`. */
  predicate ValidUrl(url: string) {
    url != [] && ')' !in url
  }

  /** `m` is an occurrence of the pattern in `s`: its span holds exactly the
      marker text of its groups. */
  predicate IsMarkerAt(s: string, m: Match) {
    && ValidDisplay(m.display) && ValidUrl(m.url)
    && m.start <= m.end <= |s|
    && s[m.start..m.end] == MarkerText(m.display, m.url)
  }

  /** The first position at or after `j` that holds `c`, or `|s|` if there is none. */
  function IndexFrom(s: string, c: char, j: nat): (k: nat)
    requires j <= |s|
    ensures j <= k <= |s|
    ensures k < |s| ==> s[k] == c
    ensures forall i :: j <= i < k ==> s[i] != c
    decreases |s| - j
  {
    if j == |s| || s[j] == c then j else IndexFrom(s, c, j + 1)
  }

  /** The characters of an occurrence, one by one. */
  lemma MarkerChars(s: string, m: Match)
    requires IsMarkerAt(s, m)
    ensures var i, L, U := m.start, |m.display|, |m.url|;
      && m.end == i + L + U + 6
      && s[i] == '(' && s[i + 1] == '['
      && s[i + 2..i + 2 + L] == m.display
      && s[i + 2 + L] == ']' && s[i + 3 + L] == '('
      && s[i + 4 + L..i + 4 + L + U] == m.url
      && s[i + 4 + L + U] == ')' && s[i + 5 + L + U] == ')'
  {
    var i, L, U := m.start, |m.display|, |m.url|;
    var t := MarkerText(m.display, m.url);
    assert |t| == L + U + 6;
    forall p | 0 <= p < |t| ensures s[i + p] == t[p] {
      assert s[i..m.end][p] == s[i + p];
    }
    forall p | 0 <= p < L ensures s[i + 2 + p] == m.display[p] {
      assert t[2 + p] == m.display[p];
    }
    forall p | 0 <= p < U ensures s[i + 4 + L + p] == m.url[p] {
      assert t[4 + L + p] == m.url[p];
    }
    assert t[0] == '(' && t[1] == '[' && t[2 + L] == ']' && t[3 + L] == '(';
    assert t[4 + L + U] == ')' && t[5 + L + U] == ')';
    assert s[i + 2..i + 2 + L] == m.display;
    assert s[i + 4 + L..i + 4 + L + U] == m.url;
  }

  /** `SOURCE_PATTERN.match(s, i)`: the occurrence starting at `i`, if any.
      The display runs to the first `]` after `([` and the url to the first `)`
      after `](`, because neither group may contain its own terminator. */
  function MatchAt(s: string, i: nat): (r: Option<Match>)
    ensures r.Some? ==> r.value.start == i < r.value.end && IsMarkerAt(s, r.value)
  {
    if i + 1 < |s| && s[i] == '(' && s[i + 1] == '[' then
      var j := IndexFrom(s, ']', i + 2);
      if i + 2 < j && j + 1 < |s| && s[j + 1] == '(' then
        var k := IndexFrom(s, ')', j + 2);
        if j + 2 < k && k + 1 < |s| && s[k + 1] == ')' then
          ScanSound(s, i, j, k);
          Some(Match(i, k + 2, s[i + 2..j], s[j + 2..k]))
        else
          None
      else
        None
    else
      None
  }

  /** The text found by the scan of `MatchAt` is an occurrence. */
  lemma ScanSound(s: string, i: nat, j: nat, k: nat)
    requires i + 1 < |s| && s[i] == '(' && s[i + 1] == '['
    requires i + 2 < j && j + 1 < |s| && j == IndexFrom(s, ']', i + 2) && s[j + 1] == '('
    requires j + 2 < k && k + 1 < |s| && k == IndexFrom(s, ')', j + 2) && s[k + 1] == ')'
    ensures IsMarkerAt(s, Match(i, k + 2, s[i + 2..j], s[j + 2..k]))
  {
    assert s[i..k + 2] == s[i..i + 2] + s[i + 2..j] + s[j..j + 2] + s[j + 2..k] + s[k..k + 2];
    assert s[i..i + 2] == "([";
    assert s[j..j + 2] == "](";
    assert s[k..k + 2] == "))";
  }

  /** An occurrence is found by `MatchAt` at its start: together with the
      soundness of `MatchAt`, a match at a given position is unique. */
  lemma MatchAtComplete(s: string, m: Match)
    requires IsMarkerAt(s, m)
    ensures MatchAt(s, m.start) == Some(m)
  {
    var i, L, U := m.start, |m.display|, |m.url|;
    var j, k := i + 2 + L, i + 4 + L + U;
    assert ScannedAs(s, m) by {
      MatchAtCompleteFor(s, m);
    }
    assert m == Match(i, k + 2, s[i + 2..j], s[j + 2..k]);
    MatchAtFound(s, i, j, k);
  }

  /** `MatchAt` reports what its scan finds. */
  lemma MatchAtFound(s: string, i: nat, j: nat, k: nat)
    requires i + 1 < |s| && s[i] == '(' && s[i + 1] == '['
    requires i + 2 < j && j + 1 < |s| && j == IndexFrom(s, ']', i + 2) && s[j + 1] == '('
    requires j + 2 < k && k + 1 < |s| && k == IndexFrom(s, ')', j + 2) && s[k + 1] == ')'
    ensures MatchAt(s, i) == Some(Match(i, k + 2, s[i + 2..j], s[j + 2..k]))
  {
  }

  /** What the scan in `MatchAt` sees at the start of an occurrence `m`. */
  ghost predicate ScannedAs(s: string, m: Match) {
    var i, L, U := m.start, |m.display|, |m.url|;
    && i + 1 < |s| && s[i] == '(' && s[i + 1] == '['
    && i + 2 + L <= |s| && IndexFrom(s, ']', i + 2) == i + 2 + L
    && i + 5 + L + U < |s|
    && s[i + 3 + L] == '('
    && IndexFrom(s, ')', i + 4 + L) == i + 4 + L + U
    && s[i + 5 + L + U] == ')'
    && m.display == s[i + 2..i + 2 + L] && m.url == s[i + 4 + L..i + 4 + L + U]
    && m.end == i + L + U + 6
  }

  lemma MatchAtCompleteFor(s: string, m: Match)
    requires IsMarkerAt(s, m)
    ensures ScannedAs(s, m)
  {
    MarkerChars(s, m);
    var i, L, U := m.start, |m.display|, |m.url|;
    forall p | i + 2 <= p < i + 2 + L ensures s[p] != ']' {
      assert s[p] == m.display[p - (i + 2)];
    }
    forall p | i + 4 + L <= p < i + 4 + L + U ensures s[p] != ')' {
      assert s[p] == m.url[p - (i + 4 + L)];
    }
  }

  /** Position `p` lies inside the span of one of the matches. */
  ghost predicate Covered(ms: seq<Match>, p: nat) {
    exists k :: 0 <= k < |ms| && ms[k].start <= p < ms[k].end
  }

  /** `ms` is what a left-to-right scan from `pos` must report: occurrences in
      increasing, non-overlapping order, such that every position at or after
      `pos` where an occurrence starts lies inside a reported match (so no
      occurrence the scan reaches is skipped). */
  ghost predicate LeftmostScan(s: string, pos: nat, ms: seq<Match>) {
    && (forall k :: 0 <= k < |ms| ==> pos <= ms[k].start && IsMarkerAt(s, ms[k]))
    && (forall j, k :: 0 <= j < k < |ms| ==> ms[j].end <= ms[k].start)
    && (forall p: nat :: pos <= p && MatchAt(s, p).Some? ==> Covered(ms, p))
  }

  /** `SOURCE_PATTERN.finditer(s, pos)`: try the pattern at `pos`; after a match
      resume at its end, otherwise at the next position. */
  function FindFrom(s: string, pos: nat): (r: seq<Match>)
    ensures LeftmostScan(s, pos, r)
    decreases |s| - pos
  {
    if pos >= |s| then
      []
    else
      match MatchAt(s, pos)
      case Some(m) =>
        var rest := FindFrom(s, m.end);
        LeftmostCons(s, m, rest);
        [m] + rest
      case None =>
        var rest := FindFrom(s, pos + 1);
        LeftmostSkip(s, pos, rest);
        rest
  }

  /** A match at `m.start` followed by a leftmost scan from its end is a
      leftmost scan from `m.start`. */
  lemma LeftmostCons(s: string, m: Match, rest: seq<Match>)
    requires MatchAt(s, m.start) == Some(m)
    requires LeftmostScan(s, m.end, rest)
    ensures LeftmostScan(s, m.start, [m] + rest)
  {
    CoveredCons(m, rest);
    var r := [m] + rest;
    forall k | 0 <= k < |r| ensures m.start <= r[k].start && IsMarkerAt(s, r[k]) {
      if k > 0 { assert r[k] == rest[k - 1]; }
    }
    forall j, k | 0 <= j < k < |r| ensures r[j].end <= r[k].start {
      assert r[k] == rest[k - 1];
      if j > 0 { assert r[j] == rest[j - 1]; }
    }
  }

  /** Skipping a position where no occurrence starts keeps a scan leftmost. */
  lemma LeftmostSkip(s: string, pos: nat, rest: seq<Match>)
    requires MatchAt(s, pos).None?
    requires LeftmostScan(s, pos + 1, rest)
    ensures LeftmostScan(s, pos, rest)
  {
  }

  /** Prepending a match that ends where the rest starts keeps every covered
      position covered. */
  lemma CoveredCons(m: Match, rest: seq<Match>)
    ensures forall p: nat :: Covered(rest, p) ==> Covered([m] + rest, p)
    ensures forall p: nat :: m.start <= p < m.end ==> Covered([m] + rest, p)
  {
    forall p: nat | Covered(rest, p) ensures Covered([m] + rest, p) {
      var k :| 0 <= k < |rest| && rest[k].start <= p < rest[k].end;
      assert ([m] + rest)[k + 1] == rest[k];
    }
    forall p: nat | m.start <= p < m.end ensures Covered([m] + rest, p) {
      assert ([m] + rest)[0] == m;
    }
  }

  /** All matches of the pattern in the document, in document order. */
  function FindAll(s: string): (r: seq<Match>)
    ensures LeftmostScan(s, 0, r)
  {
    FindFrom(s, 0)
  }

  /** The scan is the only sequence of matches with the leftmost property:
      `finditer` is characterised by `LeftmostScan`. */
  lemma {:induction false} LeftmostScanUnique(s: string, pos: nat, ms: seq<Match>)
    requires LeftmostScan(s, pos, ms)
    ensures ms == FindFrom(s, pos)
    decreases |s| - pos
  {
    if pos >= |s| {
      ScanPastEnd(s, pos, ms);
    } else {
      match MatchAt(s, pos)
      case Some(m) =>
        ScanHead(s, pos, ms, m);
        LeftmostScanUnique(s, m.end, ms[1..]);
        assert ms == [m] + ms[1..];
      case None =>
        ScanSkip(s, pos, ms);
        LeftmostScanUnique(s, pos + 1, ms);
    }
  }

  /** A scan from past the end reports nothing. */
  lemma ScanPastEnd(s: string, pos: nat, ms: seq<Match>)
    requires LeftmostScan(s, pos, ms) && pos >= |s|
    ensures ms == []
  {
    if ms != [] {
      MarkerChars(s, ms[0]);
    }
  }

  /** A leftmost scan from a position where an occurrence starts reports that
      occurrence first. */
  lemma ScanHead(s: string, pos: nat, ms: seq<Match>, m: Match)
    requires LeftmostScan(s, pos, ms) && MatchAt(s, pos) == Some(m)
    ensures ms != [] && ms[0] == m && LeftmostScan(s, m.end, ms[1..])
  {
    ScanHeadFirst(s, pos, ms, m);
    ScanTail(s, ms);
  }

  lemma ScanHeadFirst(s: string, pos: nat, ms: seq<Match>, m: Match)
    requires LeftmostScan(s, pos, ms) && MatchAt(s, pos) == Some(m)
    ensures ms != [] && ms[0] == m
  {
    assert Covered(ms, pos);
    var k :| 0 <= k < |ms| && ms[k].start <= pos < ms[k].end;
    assert pos <= ms[0].start;
    MarkerChars(s, ms[0]);
    assert k == 0;
    MatchAtComplete(s, ms[0]);
  }

  /** What follows the first match of a leftmost scan is a leftmost scan from
      that match's end. */
  lemma ScanTail(s: string, ms: seq<Match>)
    requires ms != [] && LeftmostScan(s, ms[0].start, ms)
    ensures LeftmostScan(s, ms[0].end, ms[1..])
  {
    var rest := ms[1..];
    forall k | 0 <= k < |rest| ensures ms[0].end <= rest[k].start && IsMarkerAt(s, rest[k]) {
      assert rest[k] == ms[k + 1];
    }
    forall j, k | 0 <= j < k < |rest| ensures rest[j].end <= rest[k].start {
      assert rest[j] == ms[j + 1] && rest[k] == ms[k + 1];
    }
    forall p: nat | ms[0].end <= p && MatchAt(s, p).Some? ensures Covered(rest, p) {
      assert Covered(ms, p);
      var q :| 0 <= q < |ms| && ms[q].start <= p < ms[q].end;
      assert q != 0;
      assert rest[q - 1] == ms[q];
    }
  }

  /** A leftmost scan from a position where no occurrence starts is one from
      the next position. */
  lemma ScanSkip(s: string, pos: nat, ms: seq<Match>)
    requires LeftmostScan(s, pos, ms) && MatchAt(s, pos).None?
    ensures LeftmostScan(s, pos + 1, ms)
  {
    if ms != [] && ms[0].start == pos {
      MatchAtComplete(s, ms[0]);
    }
    if ms != [] {
      MarkerChars(s, ms[0]);
    }
  }

  /** A document yields no match exactly when no occurrence starts anywhere in
      it, e.g. `[Source](https://example.com)` without the outer parentheses. */
  lemma NoMatchesIffNoMarker(s: string)
    ensures FindAll(s) == [] <==> forall p: nat :: MatchAt(s, p).None?
  {
    if forall p: nat :: MatchAt(s, p).None? {
      LeftmostScanUnique(s, 0, []);
    }
  }

  /** A document in which no `(` is directly followed by `[`, such as
      `[Source](https://example.com)` or `(Source)(https://example.com)`,
      yields no match. */
  lemma NoOpenerNoMatches(s: string)
    requires forall p :: 0 <= p < |s| - 1 ==> !(s[p] == '(' && s[p + 1] == '[')
    ensures FindAll(s) == []
  {
    forall p: nat ensures MatchAt(s, p).None? {
      if MatchAt(s, p).Some? {
        MarkerChars(s, MatchAt(s, p).value);
      }
    }
    NoMatchesIffNoMarker(s);
  }
}
