/** The first two loops of `reformat_markdown` in drcleaner.py: the `OrderedDict`
    of unique urls in order of first appearance, and the numbering loop that
    gives each url its number and its citation. The dictionary is represented by
    its key sequence `order` and a map from url to `Source`. */
module Resolver {
  import opened Extractor

  /** One value of `unique_sources` after the numbering loop. */
  datatype Source = Source(number: nat, apa: string)

  /** `match.group(2)` of every match, in document order. */
  function Urls(ms: seq<Match>): (us: seq<string>)
    ensures |us| == |ms| && forall k :: 0 <= k < |ms| ==> us[k] == ms[k].url
  {
    seq(|ms|, k requires 0 <= k < |ms| => ms[k].url)
  }

  predicate NoDup(xs: seq<string>) {
    forall i, j :: 0 <= i < j < |xs| ==> xs[i] != xs[j]
  }

  /** The position of the first occurrence of `u` in `us`. */
  function FirstIndex(us: seq<string>, u: string): (k: nat)
    requires u in us
    ensures k < |us| && us[k] == u
    ensures forall i :: 0 <= i < k ==> us[i] != u
  {
    if us[0] == u then 0 else 1 + FirstIndex(us[1..], u)
  }

  /** The keys of the `OrderedDict` filled from `us`: each url once, in order of
      first appearance. */
  function Dedup(us: seq<string>): seq<string>
  {
    if us == [] then []
    else
      var d := Dedup(us[..|us| - 1]);
      if us[|us| - 1] in d then d else d + [us[|us| - 1]]
  }

  /** The keys are exactly the urls, each once. */
  lemma {:induction false} DedupElements(us: seq<string>)
    ensures NoDup(Dedup(us))
    ensures forall u :: u in Dedup(us) <==> u in us
  {
    if us != [] {
      var init := us[..|us| - 1];
      DedupElements(init);
      assert us == init + [us[|us| - 1]];
    }
  }

  /** The keys are ordered by first appearance in `us`. */
  lemma {:induction false} DedupOrder(us: seq<string>)
    ensures forall u :: u in Dedup(us) ==> u in us
    ensures forall i, j :: 0 <= i < j < |Dedup(us)| ==>
      FirstIndex(us, Dedup(us)[i]) < FirstIndex(us, Dedup(us)[j])
  {
    DedupElements(us);
    if us != [] {
      var init, last := us[..|us| - 1], us[|us| - 1];
      DedupOrder(init);
      DedupElements(init);
      assert us == init + [last];
      var d := Dedup(init);
      forall u | u in init ensures FirstIndex(us, u) == FirstIndex(init, u) {
        FirstIndexOfPrefix(init, [last], u);
      }
      if last !in d {
        assert FirstIndex(us, last) == |init| by {
          FirstIndexLast(init, last);
        }
      }
    }
  }

  lemma FirstIndexOfPrefix(a: seq<string>, b: seq<string>, u: string)
    requires u in a
    ensures FirstIndex(a + b, u) == FirstIndex(a, u)
  {
    var k := FirstIndex(a, u);
    FirstIndexUnique(a + b, u, k);
  }

  lemma FirstIndexLast(a: seq<string>, u: string)
    requires u !in a
    ensures FirstIndex(a + [u], u) == |a|
  {
    FirstIndexUnique(a + [u], u, |a|);
  }

  /** `FirstIndex` is the one position holding `u` with no `u` before it. */
  lemma FirstIndexUnique(us: seq<string>, u: string, k: nat)
    requires k < |us| && us[k] == u
    requires forall i :: 0 <= i < k ==> us[i] != u
    ensures FirstIndex(us, u) == k
  {
  }

  /** The keys of `unique_sources` are exactly the urls of the matches. */
  lemma KeysAreMatchedUrls(ms: seq<Match>)
    ensures forall u :: u in Dedup(Urls(ms)) <==> exists k :: 0 <= k < |ms| && ms[k].url == u
  {
    var us := Urls(ms);
    DedupElements(us);
    forall u | u in Dedup(us) ensures exists k :: 0 <= k < |ms| && ms[k].url == u {
      var k := FirstIndex(us, u);
      assert ms[k].url == u;
    }
  }

  /** `apa_citation if apa_citation else "[Failed to generate APA for {url}]"`. */
  function Fallback(apa: string, url: string): (r: string)
    ensures r != []
    ensures apa != [] ==> r == apa
  {
    if apa != [] then apa else "[Failed to generate APA for " + url + "]"
  }

  /** `unique_sources` after the numbering loop: the url at position `k` of the
      key order has number `k + 1` and its citation (or the fallback). */
  ghost function Numbered(order: seq<string>, cite: string -> string): (src: map<string, Source>)
    requires NoDup(order)
    ensures forall u :: u in src <==> u in order
    ensures forall k :: 0 <= k < |order| ==>
      src[order[k]] == Source(k + 1, Fallback(cite(order[k]), order[k]))
  {
    map u | u in order :: Source(FirstIndex(order, u) + 1, Fallback(cite(u), u))
  }

  /** The first loop: `unique_sources[url] = ...` for every url not yet a key. */
  method UniqueUrls(ms: seq<Match>) returns (order: seq<string>)
    ensures order == Dedup(Urls(ms))
  {
    order := [];
    var i := 0;
    while i < |ms|
      invariant 0 <= i <= |ms|
      invariant order == Dedup(Urls(ms)[..i])
    {
      var url := ms[i].url;
      assert Urls(ms)[..i + 1][..i] == Urls(ms)[..i];
      if url !in order {
        order := order + [url];
      }
      i := i + 1;
    }
    assert Urls(ms)[..|ms|] == Urls(ms);
  }

  /** The second loop: walk the keys in order, counting up from 1, and store
      each url's number and citation. */
  method AssignNumbers(order: seq<string>, cite: string -> string)
    returns (sources: map<string, Source>)
    requires NoDup(order)
    ensures sources == Numbered(order, cite)
  {
    sources := map[];
    var current := 1;
    var i := 0;
    while i < |order|
      invariant 0 <= i <= |order| && current == i + 1
      invariant forall u :: u in sources <==> u in order[..i]
      invariant forall k :: 0 <= k < i ==>
        sources[order[k]] == Source(k + 1, Fallback(cite(order[k]), order[k]))
    {
      var url := order[i];
      var apa := cite(url);
      sources := sources[url := Source(current, Fallback(apa, url))];
      current := current + 1;
      i := i + 1;
    }
    assert order[..|order|] == order;
    NumberedUnique(order, cite, sources);
  }

  /** A map with the keys of `order` and the entries `Numbered` describes is `Numbered`. */
  lemma NumberedUnique(order: seq<string>, cite: string -> string, src: map<string, Source>)
    requires NoDup(order)
    requires forall u :: u in src <==> u in order
    requires forall k :: 0 <= k < |order| ==>
      src[order[k]] == Source(k + 1, Fallback(cite(order[k]), order[k]))
    ensures src == Numbered(order, cite)
  {
    var n := Numbered(order, cite);
    forall u | u in src ensures src[u] == n[u] {
      var k :| 0 <= k < |order| && order[k] == u;
    }
  }

  /** The numbers are exactly 1..N, one url each, the key at position `k`
      holding `k + 1`: N is the number of unique urls, not the number of markers. */
  lemma NumbersContiguous(order: seq<string>, cite: string -> string)
    requires NoDup(order)
    ensures var src := Numbered(order, cite);
      && (forall u :: u in src ==> 1 <= src[u].number <= |order|)
      && (forall k :: 0 <= k < |order| ==> src[order[k]].number == k + 1)
      && (forall u, v :: u in src && v in src && src[u].number == src[v].number ==> u == v)
  {
    var src := Numbered(order, cite);
    forall u | u in src ensures 1 <= src[u].number <= |order| {
      var k :| 0 <= k < |order| && order[k] == u;
    }
    forall u, v | u in src && v in src && src[u].number == src[v].number ensures u == v {
      var i :| 0 <= i < |order| && order[i] == u;
      var j :| 0 <= j < |order| && order[j] == v;
    }
  }

  /** Every matched url is a key of `unique_sources`, and a url `u` gets a
      smaller number than `v` exactly when `u` first appears before `v` in the
      document. */
  lemma NumberingByFirstAppearance(ms: seq<Match>, cite: string -> string)
    ensures NoDup(Dedup(Urls(ms)))
    ensures var us := Urls(ms); var src := Numbered(Dedup(us), cite);
      forall u, v :: u in us && v in us ==>
        && u in src && v in src
        && (src[u].number < src[v].number <==> FirstIndex(us, u) < FirstIndex(us, v))
  {
    var us := Urls(ms);
    var order := Dedup(us);
    DedupElements(us);
    DedupOrder(us);
    var src := Numbered(order, cite);
    forall u, v | u in us && v in us
      ensures src[u].number < src[v].number <==> FirstIndex(us, u) < FirstIndex(us, v)
    {
      var i :| 0 <= i < |order| && order[i] == u;
      var j :| 0 <= j < |order| && order[j] == v;
      assert src[u].number == i + 1 && src[v].number == j + 1;
      if i < j {
        assert FirstIndex(us, u) < FirstIndex(us, v);
      } else if j < i {
        assert FirstIndex(us, v) < FirstIndex(us, u);
      }
    }
  }

  /** Walking the keys in order visits the numbers in ascending order, so
      `sorted(unique_sources.items(), key=number)` lists the urls in key order. */
  lemma KeyOrderIsNumberOrder(order: seq<string>, cite: string -> string)
    requires NoDup(order)
    ensures var src := Numbered(order, cite);
      forall i, j :: 0 <= i < j < |order| ==> src[order[i]].number < src[order[j]].number
  {
  }

  /** `sorted(unique_sources.items(), key=number)`: any listing of the keys,
      each once, in ascending number is the key order itself. */
  lemma SortedItemsFollowKeyOrder(order: seq<string>, cite: string -> string, xs: seq<string>)
    requires NoDup(order) && NoDup(xs) && |xs| == |order|
    requires forall u :: u in xs ==> u in order
    requires var src := Numbered(order, cite);
      forall i, j :: 0 <= i < j < |xs| ==> src[xs[i]].number <= src[xs[j]].number
    ensures xs == order
  {
    var src := Numbered(order, cite);
    NumbersContiguous(order, cite);
    var a := seq(|xs|, i requires 0 <= i < |xs| => src[xs[i]].number);
    forall i, j | 0 <= i < j < |a| ensures a[i] < a[j] {
      assert xs[i] != xs[j];
    }
    forall i | 0 <= i < |xs| ensures xs[i] == order[i] {
      IncreasingFillsRange(a, i);
      assert src[xs[i]].number == src[order[i]].number;
    }
  }

  /** A strictly increasing sequence of `n` numbers from 1 to `n` is 1, 2, ..., n. */
  lemma IncreasingFillsRange(a: seq<int>, i: nat)
    requires forall j, k :: 0 <= j < k < |a| ==> a[j] < a[k]
    requires forall j :: 0 <= j < |a| ==> 1 <= a[j] <= |a|
    requires i < |a|
    ensures a[i] == i + 1
  {
    AtLeastPosition(a, i);
    AtMostPosition(a, i);
  }

  lemma {:induction false} AtLeastPosition(a: seq<int>, i: nat)
    requires forall j, k :: 0 <= j < k < |a| ==> a[j] < a[k]
    requires forall j :: 0 <= j < |a| ==> 1 <= a[j]
    requires i < |a|
    ensures a[i] >= i + 1
    decreases i
  {
    if i > 0 {
      AtLeastPosition(a, i - 1);
    }
  }

  lemma {:induction false} AtMostPosition(a: seq<int>, i: nat)
    requires forall j, k :: 0 <= j < k < |a| ==> a[j] < a[k]
    requires forall j :: 0 <= j < |a| ==> a[j] <= |a|
    requires i < |a|
    ensures a[i] <= i + 1
    decreases |a| - i
  {
    if i + 1 < |a| {
      AtMostPosition(a, i + 1);
    }
  }
}
