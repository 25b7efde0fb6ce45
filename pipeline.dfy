/** `reformat_markdown` in drcleaner.py, once the document has been read and
    before the result is written: find the markers, number the unique urls,
    fetch a citation for each, replace every marker by its numbered link and
    append the Sources section. The citation service is the parameter `cite`. */
module Pipeline {
  import opened Strings
  import opened Extractor
  import opened Resolver
  import opened Rewriter
  import opened Citation

  /** What `reformat_markdown` writes for `content`, or `None` when there is no
      marker and it returns without writing. */
  ghost function Reformatted(content: string, cite: string -> string): Option<string>
  {
    var ms := FindAll(content);
    if ms == [] then None
    else
      var order := Dedup(Urls(ms));
      DedupElements(Urls(ms));
      var src := Numbered(order, cite);
      var body := Assemble(content, ms, Replacements(content, ms, src), 0, 0);
      var sourcesList := SourcesHeading() + Concat(EntryLines(order, src));
      Some(RStrip(body) + sourcesList)
  }

  /** The steps of `reformat_markdown`, one after the other. */
  method ReformatMarkdown(content: string, cite: string -> string) returns (out: Option<string>)
    ensures out == Reformatted(content, cite)
  {
    var matches := FindAll(content);
    if |matches| == 0 {
      return None;
    }
    var order := UniqueUrls(matches);
    DedupElements(Urls(matches));
    var sources := AssignNumbers(order, cite);
    var modified := ReplaceBackward(content, matches, sources);
    modified := RStrip(modified);
    var sourcesList := BuildSourcesSection(order, sources);
    out := Some(modified + sourcesList);
  }

  /** Nothing is written exactly when no marker starts anywhere in the document. */
  lemma NoOutputIffNoMarker(content: string, cite: string -> string)
    ensures Reformatted(content, cite).None? <==> forall p: nat :: MatchAt(content, p).None?
  {
    NoMatchesIffNoMarker(content);
  }

  /** Every marker is replaced by the link of its url's number, so the warning
      branch of the replacement loop is never taken; markers of one url get the
      same link and markers of different urls different links. */
  lemma InlineLinks(s: string, ms: seq<Match>, cite: string -> string)
    requires Disjoint(ms, |s|)
    ensures NoDup(Dedup(Urls(ms)))
    ensures var src := Numbered(Dedup(Urls(ms)), cite);
      var reps := Replacements(s, ms, src);
      && (forall k :: 0 <= k < |ms| ==> ms[k].url in src && reps[k] == Link(src[ms[k].url].number))
      && (forall j, k :: 0 <= j < |ms| && 0 <= k < |ms| ==> (reps[j] == reps[k] <==> ms[j].url == ms[k].url))
  {
    var us := Urls(ms);
    var order := Dedup(us);
    DedupElements(us);
    NumberingByFirstAppearance(ms, cite);
    NumbersContiguous(order, cite);
    var src := Numbered(order, cite);
    var reps := Replacements(s, ms, src);
    forall k | 0 <= k < |ms| ensures ms[k].url in src {
      assert us[k] == ms[k].url;
    }
    forall j, k | 0 <= j < |ms| && 0 <= k < |ms| && reps[j] == reps[k]
      ensures ms[j].url == ms[k].url
    {
      LinkInjective(src[ms[j].url].number, src[ms[k].url].number);
    }
  }

  /** The document written: the text with every marker replaced (see
      `InlineLinks`), right-stripped, then the heading and one anchored line per
      unique url, the url first appearing `k`-th on line `k` with number `k`, so
      that there are as many lines as unique urls, not as markers. */
  lemma OutputShape(content: string, cite: string -> string)
    requires Reformatted(content, cite).Some?
    ensures var ms := FindAll(content); var order := Dedup(Urls(ms));
      NoDup(order) &&
      var src := Numbered(order, cite);
      var lines := EntryLines(order, src);
      && Disjoint(ms, |content|)
      && Reformatted(content, cite).value
         == RStrip(Assemble(content, ms, Replacements(content, ms, src), 0, 0)) + (SourcesHeading() + Concat(lines))
      && (forall u :: u in order <==> exists k :: 0 <= k < |ms| && ms[k].url == u)
      && |lines| == |order|
      && (forall k :: 0 <= k < |order| ==> lines[k] == AnchorLine(k + 1, Fallback(cite(order[k]), order[k])))
  {
    var ms := FindAll(content);
    DedupElements(Urls(ms));
    KeysAreMatchedUrls(ms);
  }

  /** Every inline link has its target: the marker for url `u` becomes the
      link `[n](#source-n)` with `n` the number of `u`, and line `n` of the
      Sources section is the anchor `source-n` followed by the citation of `u`. */
  lemma LinksHaveAnchors(s: string, ms: seq<Match>, cite: string -> string)
    requires Disjoint(ms, |s|)
    ensures NoDup(Dedup(Urls(ms)))
    ensures var order := Dedup(Urls(ms));
      var src := Numbered(order, cite);
      var reps := Replacements(s, ms, src);
      var lines := EntryLines(order, src);
      forall k :: 0 <= k < |ms| ==>
        && ms[k].url in src
        && var n := src[ms[k].url].number;
        && 1 <= n <= |lines|
        && reps[k] == Link(n)
        && lines[n - 1] == AnchorLine(n, src[ms[k].url].apa)
  {
    InlineLinks(s, ms, cite);
    AnchorOfEveryKey(Dedup(Urls(ms)), cite);
  }

  /** With the service's replies behind `cite`, the citation stored for a url
      is what `get_apa_citation` returned, except that an all-white-space reply
      text gives the `[Failed to generate APA for ...]` fallback instead. */
  lemma StoredCitations(order: seq<string>, reply: string -> Reply)
    requires NoDup(order)
    ensures var src := Numbered(order, u => GetApaCitation(true, u, reply(u)));
      forall u :: u in src ==>
        && src[u].apa != ""
        && (if reply(u).Answered? && forall i :: 0 <= i < |reply(u).text| ==> IsSpace(reply(u).text[i])
            then src[u].apa == "[Failed to generate APA for " + u + "]"
            else src[u].apa == GetApaCitation(true, u, reply(u)))
  {
    var cite := u => GetApaCitation(true, u, reply(u));
    var src := Numbered(order, cite);
    forall u | u in src
      ensures reply(u).Answered? && (forall i :: 0 <= i < |reply(u).text| ==> IsSpace(reply(u).text[i]))
              <==> cite(u) == ""
    {
      if reply(u).Answered? {
        EmptyCitationIffBlank(u, reply(u).text);
      }
    }
  }
}
