/** The last two loops of `reformat_markdown` in drcleaner.py: the backward
    replacement of every marker by a numbered link, and the accumulation of the
    appended Sources section. */
module Rewriter {
  import opened Strings
  import opened Extractor
  import opened Resolver

  /** `f'[{number}](#source-{number})'`. */
  function Link(n: nat): string {
    "[" + Decimal(n) + "](#source-" + Decimal(n) + ")"
  }

  /** The spans lie inside a text of length `len`, each ending before the next
      one starts. */
  predicate Disjoint(ms: seq<Match>, len: nat) {
    && (forall k :: 0 <= k < |ms| ==> ms[k].start <= ms[k].end <= len)
    && (forall k :: 0 < k < |ms| ==> ms[k - 1].end <= ms[k].start)
  }

  /** The forward assembly: the text from `from` with the span of each
      `ms[k]`, `k >= i`, replaced by `reps[k]` and every gap between spans
      copied unchanged. */
  function Assemble(s: string, ms: seq<Match>, reps: seq<string>, i: nat, from: nat): string
    requires |reps| == |ms| && Disjoint(ms, |s|) && i <= |ms| && from <= |s|
    requires i < |ms| ==> from <= ms[i].start
    decreases |ms| - i
  {
    if i == |ms| then s[from..]
    else s[from..ms[i].start] + reps[i] + Assemble(s, ms, reps, i + 1, ms[i].end)
  }

  /** What the loop puts in place of each match: its numbered link, or, on the
      warning branch for a url that is not a key, the marker text left as it was. */
  function Replacements(s: string, ms: seq<Match>, sources: map<string, Source>): (reps: seq<string>)
    requires Disjoint(ms, |s|)
    ensures |reps| == |ms|
    ensures forall k :: 0 <= k < |ms| ==>
      reps[k] == if ms[k].url in sources then Link(sources[ms[k].url].number)
                 else s[ms[k].start..ms[k].end]
  {
    seq(|ms|, k requires 0 <= k < |ms| =>
      if ms[k].url in sources then Link(sources[ms[k].url].number)
      else s[ms[k].start..ms[k].end])
  }

  /** The replacement loop, last match first, so that the offsets of the matches
      still to be replaced stay valid: it yields the forward assembly. */
  method ReplaceBackward(s: string, ms: seq<Match>, sources: map<string, Source>)
    returns (modified: string)
    requires Disjoint(ms, |s|)
    ensures modified == Assemble(s, ms, Replacements(s, ms, sources), 0, 0)
  {
    ghost var reps := Replacements(s, ms, sources);
    modified := s;
    var i := |ms|;
    PartialEnds(s, ms, reps);
    while i > 0
      invariant 0 <= i <= |ms|
      invariant modified == Partial(s, ms, reps, i)
    {
      var m := ms[i - 1];
      if m.url in sources {
        var number := sources[m.url].number;
        var citationLink := Link(number);
        ReplaceStep(s, ms, reps, i, modified, citationLink);
        modified := modified[..m.start] + citationLink + modified[m.end..];
      } else {
        KeepStep(s, ms, reps, i, modified);
      }
      i := i - 1;
    }
  }

  /** The document once the matches from `i` on have been replaced: the
      original text up to the end of match `i - 1`, then the assembly. */
  ghost function Partial(s: string, ms: seq<Match>, reps: seq<string>, i: nat): string
    requires |reps| == |ms| && Disjoint(ms, |s|) && i <= |ms|
  {
    s[..Done(ms, i)] + Assemble(s, ms, reps, i, Done(ms, i))
  }

  /** Before the loop nothing is replaced; after it, everything is. */
  lemma PartialEnds(s: string, ms: seq<Match>, reps: seq<string>)
    requires |reps| == |ms| && Disjoint(ms, |s|)
    ensures Partial(s, ms, reps, |ms|) == s
    ensures Partial(s, ms, reps, 0) == Assemble(s, ms, reps, 0, 0)
  {
    assert s == s[..Done(ms, |ms|)] + s[Done(ms, |ms|)..];
    assert s[..Done(ms, 0)] == [];
  }

  /** Where the part of the document still holding original text ends when the
      matches from `i` on have been replaced. */
  function Done(ms: seq<Match>, i: nat): nat
    requires i <= |ms|
  {
    if i == 0 then 0 else ms[i - 1].end
  }

  /** Cutting `a + b` at a position inside `a`. */
  lemma SplitAt(a: string, b: string, p: nat)
    requires p <= |a|
    ensures (a + b)[..p] == a[..p] && (a + b)[|a|..] == b
  {
  }

  /** The loop body, when the url is a key: with the matches from `i` on
      replaced, putting `r`, the replacement of match `i - 1`, in its span
      gives the text with the matches from `i - 1` on replaced. */
  lemma ReplaceStep(s: string, ms: seq<Match>, reps: seq<string>, i: nat, modified: string, r: string)
    requires |reps| == |ms| && Disjoint(ms, |s|) && 1 <= i <= |ms|
    requires modified == Partial(s, ms, reps, i) && r == reps[i - 1]
    ensures var m := ms[i - 1];
      && m.start <= m.end <= |modified|
      && modified[..m.start] + r + modified[m.end..] == Partial(s, ms, reps, i - 1)
  {
    var m := ms[i - 1];
    var tail := Assemble(s, ms, reps, i, m.end);
    var head := s[..m.end];
    assert modified == head + tail && |head| == m.end;
    assert modified[..m.start] == s[..m.start] && modified[m.end..] == tail by {
      SplitAt(head, tail, m.start);
      assert head[..m.start] == s[..m.start];
    }
    BackwardStep(s, ms, reps, i);
  }

  /** The loop body on the warning branch: when the replacement of match
      `i - 1` is its own text, leaving the text as it is already replaces the
      matches from `i - 1` on. */
  lemma KeepStep(s: string, ms: seq<Match>, reps: seq<string>, i: nat, modified: string)
    requires |reps| == |ms| && Disjoint(ms, |s|) && 1 <= i <= |ms|
    requires modified == Partial(s, ms, reps, i)
    requires reps[i - 1] == s[ms[i - 1].start..ms[i - 1].end]
    ensures modified == Partial(s, ms, reps, i - 1)
  {
    var m := ms[i - 1];
    var tail := Assemble(s, ms, reps, i, m.end);
    assert s[..m.end] == s[..m.start] + reps[i - 1];
    BackwardStep(s, ms, reps, i);
  }

  /** One step of the loop: replacing match `i - 1` in front of the already
      assembled tail is assembling from the end of match `i - 2`. */
  lemma BackwardStep(s: string, ms: seq<Match>, reps: seq<string>, i: nat)
    requires |reps| == |ms| && Disjoint(ms, |s|) && 1 <= i <= |ms|
    ensures var m := ms[i - 1];
      s[..m.start] + reps[i - 1] + Assemble(s, ms, reps, i, m.end)
      == s[..Done(ms, i - 1)] + Assemble(s, ms, reps, i - 1, Done(ms, i - 1))
  {
    var m, b := ms[i - 1], Done(ms, i - 1);
    var tail := Assemble(s, ms, reps, i, m.end);
    assert Assemble(s, ms, reps, i - 1, b) == s[b..m.start] + reps[i - 1] + tail;
    assert s[..m.start] == s[..b] + s[b..m.start];
    AppendAssoc(s[..b], s[b..m.start], reps[i - 1], tail);
  }

  lemma AppendAssoc(a: string, b: string, c: string, d: string)
    ensures (a + b) + c + d == a + (b + c + d)
  {
  }

  /** A link is `[`, the numeral of `n`, which reads back as `n`, then
      `](#source-`, the same numeral again and `)`; the first `]` closes the
      numeral. */
  lemma LinkParts(n: nat)
    ensures var d := Decimal(n); var l := Link(n);
      && |l| == 2 * |d| + 12 && l[0] == '['
      && l[1..1 + |d|] == d && DecimalValue(l[1..1 + |d|]) == n
      && (forall i :: 1 <= i < 1 + |d| ==> l[i] != ']') && l[1 + |d|] == ']'
      && l[1 + |d|..|d| + 11] == "](#source-" && l[|d| + 11..|l| - 1] == d && l[|l| - 1] == ')'
  {
    var d := Decimal(n);
    Pieces("[", d, "](#source-", d, ")");
    DecimalRoundTrip(n);
    assert Link(n)[1 + |d|..|d| + 11][0] == ']';
  }

  /** An anchored line is `<a id="source-`, the numeral of `n`, `"></a>`, the
      numeral again, `. `, the citation and the end of the line. */
  lemma AnchorLineParts(n: nat, apa: string)
    ensures var d := Decimal(n); var r := AnchorLine(n, apa);
      && |r| == 2 * |d| + |apa| + 23
      && r[..14] == "<a id=\"source-" && r[14..14 + |d|] == d
      && r[14 + |d|..20 + |d|] == "\"></a>" && r[20 + |d|..20 + 2 * |d|] == d
      && r[20 + 2 * |d|..22 + 2 * |d|] == ". " && r[22 + 2 * |d|..|r| - 1] == apa && r[|r| - 1] == '\n'
  {
    var d := Decimal(n);
    var a := "<a id=\"source-" + d + "\"></a>";
    Pieces(a, d, ". ", apa, "\n");
    Pieces3("<a id=\"source-", d, "\"></a>");
    var r := AnchorLine(n, apa);
    assert r[..14] == r[..|a|][..14];
    assert r[14..14 + |d|] == r[..|a|][14..14 + |d|];
    assert r[14 + |d|..20 + |d|] == r[..|a|][14 + |d|..];
  }

  /** The link of number `n` points at the anchor of line `n`: the fragment
      after the link's `#` is the anchor's id. */
  lemma LinkTargetsAnchor(n: nat, apa: string)
    ensures var d := Decimal(n);
      && Link(n)[|d| + 3] == '#'
      && Link(n)[|d| + 4..|Link(n)| - 1] == AnchorLine(n, apa)[7..14 + |d|]
  {
    var d := Decimal(n);
    var l, r := Link(n), AnchorLine(n, apa);
    var id := "source-" + d;
    assert l[|d| + 3] == '#' by {
      LinkParts(n);
      assert l[|d| + 3] == l[1 + |d|..|d| + 11][2];
    }
    assert l[|d| + 4..|l| - 1] == id by {
      LinkParts(n);
      Split(l, |d| + 4, |d| + 11, |l| - 1);
      assert l[|d| + 4..|d| + 11] == l[1 + |d|..|d| + 11][3..];
    }
    assert r[7..14 + |d|] == id by {
      AnchorLineParts(n, apa);
      Split(r, 7, 14, 14 + |d|);
      assert r[7..14] == r[..14][7..];
    }
  }

  /** Slicing distributes over a split point. */
  lemma Split(s: string, i: nat, j: nat, k: nat)
    requires i <= j <= k <= |s|
    ensures s[i..k] == s[i..j] + s[j..k]
  {
  }

  /** The pieces of a concatenation of three strings. */
  lemma Pieces3(a: string, b: string, c: string)
    ensures var s := a + b + c;
      s[..|a|] == a && s[|a|..|a| + |b|] == b && s[|a| + |b|..] == c
  {
  }

  /** The pieces of a concatenation of five strings. */
  lemma Pieces(a: string, b: string, c: string, e: string, f: string)
    ensures var s := a + b + c + e + f;
      && s[..|a|] == a
      && s[|a|..|a| + |b|] == b
      && s[|a| + |b|..|a| + |b| + |c|] == c
      && s[|a| + |b| + |c|..|s| - |f|] == e
      && s[|s| - |f|..] == f
  {
    var s := a + b + c + e + f;
    assert s == a + b + c + e + f;
  }

  /** Distinct numbers give distinct links: the numeral is the digits before
      the first `]`. */
  lemma LinkInjective(a: nat, b: nat)
    requires Link(a) == Link(b)
    ensures a == b
  {
    var da, db := Decimal(a), Decimal(b);
    LinkParts(a);
    LinkParts(b);
    assert |da| == |db|;
    DecimalInjective(a, b);
  }

  /** The warning branch leaves a marker as it was: when no url is a key,
      the replacement loop gives back the document unchanged. */
  lemma UnknownUrlsLeftAlone(s: string, ms: seq<Match>, sources: map<string, Source>)
    requires Disjoint(ms, |s|)
    requires forall k :: 0 <= k < |ms| ==> ms[k].url !in sources
    ensures Assemble(s, ms, Replacements(s, ms, sources), 0, 0) == s
  {
    assert Replacements(s, ms, sources)
      == seq(|ms|, k requires 0 <= k < |ms| => s[ms[k].start..ms[k].end]);
    AssembleOwnSpans(s, ms, 0, 0);
  }

  /** Putting every span's own text back gives the original document: the
      assembly changes nothing outside the spans. */
  lemma {:induction false} AssembleOwnSpans(s: string, ms: seq<Match>, i: nat, from: nat)
    requires Disjoint(ms, |s|) && i <= |ms| && from <= |s| && (i < |ms| ==> from <= ms[i].start)
    ensures Assemble(s, ms, seq(|ms|, k requires 0 <= k < |ms| => s[ms[k].start..ms[k].end]), i, from) == s[from..]
    decreases |ms| - i
  {
    if i < |ms| {
      AssembleOwnSpans(s, ms, i + 1, ms[i].end);
      assert s[from..] == s[from..ms[i].start] + s[ms[i].start..ms[i].end] + s[ms[i].end..];
    }
  }

  /** The length of the assembly: the document, less the spans, plus the
      replacements. */
  lemma {:induction false} AssembleLength(s: string, ms: seq<Match>, reps: seq<string>, i: nat, from: nat)
    requires |reps| == |ms| && Disjoint(ms, |s|) && i <= |ms| && from <= |s|
    requires i < |ms| ==> from <= ms[i].start
    ensures |Assemble(s, ms, reps, i, from)| == |s| - from - SpanTotal(ms, i) + LengthTotal(reps, i)
    decreases |ms| - i
  {
    if i < |ms| {
      AssembleLength(s, ms, reps, i + 1, ms[i].end);
    }
  }

  /** The total length of the spans from `i` on. */
  function SpanTotal(ms: seq<Match>, i: nat): int
    decreases |ms| - i
  {
    if i >= |ms| then 0 else ms[i].end - ms[i].start + SpanTotal(ms, i + 1)
  }

  /** The total length of the replacements from `i` on. */
  function LengthTotal(xs: seq<string>, i: nat): nat
    decreases |xs| - i
  {
    if i >= |xs| then 0 else |xs[i]| + LengthTotal(xs, i + 1)
  }

  /** The text after the heading: one anchored line per key, in key order. */
  function EntryLines(order: seq<string>, sources: map<string, Source>): (ls: seq<string>)
    requires forall u :: u in order ==> u in sources
    ensures |ls| == |order|
    ensures forall k :: 0 <= k < |order| ==>
      ls[k] == AnchorLine(sources[order[k]].number, sources[order[k]].apa)
  {
    seq(|order|, k requires 0 <= k < |order| =>
      AnchorLine(sources[order[k]].number, sources[order[k]].apa))
  }

  /** Each key's number `n` is a line of the Sources section, and line `n`
      carries that key's anchor and citation. */
  lemma AnchorOfEveryKey(order: seq<string>, cite: string -> string)
    requires NoDup(order)
    ensures var src := Numbered(order, cite);
      var lines := EntryLines(order, src);
      forall u :: u in src ==>
        && 1 <= src[u].number <= |lines|
        && lines[src[u].number - 1] == AnchorLine(src[u].number, src[u].apa)
  {
    var src := Numbered(order, cite);
    forall u | u in src
      ensures 1 <= src[u].number <= |order|
      ensures src[order[src[u].number - 1]] == src[u]
    {
      var k :| 0 <= k < |order| && order[k] == u;
    }
  }

  /** `f'<a id="source-{number}"></a>{number}. {apa}\n'`. */
  function AnchorLine(n: nat, apa: string): string {
    "<a id=\"source-" + Decimal(n) + "\"></a>" + Decimal(n) + ". " + apa + "\n"
  }

  /** `"\n\n# Sources\n\n"`: the level-one heading `Sources` on a line of its
      own, with an empty line before and after it. */
  function SourcesHeading(): string {
    "\n\n# Sources\n\n"
  }

  /** The heading is the line `# Sources` with an empty line before and after
      it. */
  lemma SourcesHeadingLine()
    ensures var h := SourcesHeading();
      |h| == 13 && h[..2] == "\n\n" && h[2..11] == "# Sources" && h[11..] == "\n\n"
  {
  }

  /** One more key adds its line at the end. */
  lemma EntryLinesSnoc(order: seq<string>, sources: map<string, Source>, i: nat)
    requires i < |order| && forall u :: u in order ==> u in sources
    ensures var src := sources[order[i]];
      Concat(EntryLines(order[..i + 1], sources))
      == Concat(EntryLines(order[..i], sources)) + AnchorLine(src.number, src.apa)
  {
    var src := sources[order[i]];
    assert EntryLines(order[..i + 1], sources)
      == EntryLines(order[..i], sources) + [AnchorLine(src.number, src.apa)];
  }

  /** One turn of the Sources loop appends the next key's line. */
  lemma SectionStep(order: seq<string>, sources: map<string, Source>, i: nat, md: string)
    requires i < |order| && forall u :: u in order ==> u in sources
    requires md == SourcesHeading() + Concat(EntryLines(order[..i], sources))
    ensures var src := sources[order[i]];
      md + AnchorLine(src.number, src.apa)
      == SourcesHeading() + Concat(EntryLines(order[..i + 1], sources))
  {
    var src := sources[order[i]];
    EntryLinesSnoc(order, sources, i);
    var h, c, a := SourcesHeading(), Concat(EntryLines(order[..i], sources)), AnchorLine(src.number, src.apa);
    Assoc(h, c, a);
  }

  /** Concatenation is associative. */
  lemma Assoc(a: string, b: string, c: string)
    ensures (a + b) + c == a + (b + c)
  {
  }

  /** The lines one after the other. */
  function Concat(ls: seq<string>): string {
    if ls == [] then "" else Concat(ls[..|ls| - 1]) + ls[|ls| - 1]
  }

  /** The Sources loop: start from the heading and append one anchored line per
      key, walking the keys in ascending number. */
  method BuildSourcesSection(order: seq<string>, sources: map<string, Source>)
    returns (md: string)
    requires forall u :: u in order ==> u in sources
    ensures md == SourcesHeading() + Concat(EntryLines(order, sources))
  {
    md := SourcesHeading();
    var i := 0;
    while i < |order|
      invariant 0 <= i <= |order|
      invariant md == SourcesHeading() + Concat(EntryLines(order[..i], sources))
    {
      var url := order[i];
      var number := sources[url].number;
      var apa := sources[url].apa;
      SectionStep(order, sources, i, md);
      md := md + AnchorLine(number, apa);
      i := i + 1;
    }
    assert order[..|order|] == order;
  }
}
