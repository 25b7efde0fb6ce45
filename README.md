# drcleaner: the marker-to-footnote rewrite, in Dafny

drcleaner.py reads a Markdown document. The document cites its sources inline
as markers `([display text](url))`. For each marker, the script:

- finds every marker;
- gives every distinct url a number 1..N in order of first appearance;
- asks a text-generation service for an APA reference line for each url;
- replaces every marker by the link `[n](#source-n)`;
- appends a `# Sources` section with one anchored line `<a id="source-n"></a>n. citation` per url.

This project models that pipeline and proves what it promises. Each module
follows one part of `reformat_markdown` and `get_apa_citation`:

- `Strings` (strings.dfy): the parts of Python's `str` the script relies on.
  These are `isspace`, `strip`, `rstrip`, `isdigit` and `str(n)`.
- `Extractor` (extractor.dfy): `SOURCE_PATTERN` and `finditer`.
  - `MatchAt` is the pattern tried at one position.
  - `FindFrom`/`FindAll` is the left-to-right scan.
  - The scan is characterised by the predicate `LeftmostScan`. The lemma `LeftmostScanUnique` shows that the scan is the only list with that property.
- `Resolver` (resolver.dfy): the `OrderedDict` of unique urls and the numbering loop.
  - The dictionary is its key sequence `order` plus a map from url to `Source(number, apa)`.
  - The two loops are methods (`UniqueUrls`, `AssignNumbers`). Each is proved against a specification function (`Dedup`, `Numbered`).
- `Rewriter` (rewriter.dfy): the backward replacement loop and the accumulation of the Sources section.
  - `ReplaceBackward` replaces from the last match to the first. It is proved equal to `Assemble`, the forward concatenation of gaps and replacements.
  - `BuildSourcesSection` is proved equal to the heading followed by `EntryLines`.
- `Citation` (citation.dfy): what `get_apa_citation` does with a reply.
  - It strips the text, removes a list marker and a `D. ` numbering prefix, and chooses the placeholder strings.
  - The prefix cleanup is modelled twice: exactly as written (`CleanupAsWritten`, which can raise `IndexError`) and as evidently intended (`Cleanup`). See Findings.
- `Pipeline` (pipeline.dfy): `reformat_markdown` from the content it read to the content it writes.
  - `ReformatMarkdown` calls the methods above in the source's order.
  - It is proved equal to `Reformatted`, whose shape the lemmas describe.

The citation service is the parameter `cite: string -> string` of the pipeline.
In `Citation`, the service's reply is the datatype `Reply`: answered text,
blocked, no parts, or an exception.

## Model

| member | source | states |
|---|---|---|
| Strings.RStrip | drcleaner.py:151 | `rstrip()` returns a prefix of the text that is empty or ends in a non-white-space character, and everything it drops is white space |
| Strings.Strip | drcleaner.py:51 | `strip()` leaves no white space at either end, and it returns the empty string exactly when the whole text is white space |
| Strings.StripIsSlice | drcleaner.py:51 | `strip()` returns one contiguous slice of the text, with only white space before and after it |
| Strings.Decimal | drcleaner.py:129 | `str(n)` is a non-empty string of decimal digits with no leading zero unless n is 0 |
| Strings.DecimalRoundTrip | drcleaner.py:129 | reading the digits of `str(n)` back gives n |
| Strings.SpaceCharacters | drcleaner.py:51 | the white space that `strip()` here and `rstrip()` at line 151 remove is exactly the 29 characters Python's `str.isspace` accepts, listed by code point |
| Strings.DecimalInjective | drcleaner.py:129 | distinct numbers have distinct numerals |
| Extractor.MatchAt | drcleaner.py:12 | a match reported at position i starts at i, is non-empty, and its span is exactly `([display](url))` with display non-empty and free of `]`, and url non-empty and free of `)` |
| Extractor.MatchAtComplete | drcleaner.py:12 | every occurrence of the pattern is the match reported at its start, so a match at a given position is unique |
| Extractor.FindFrom | drcleaner.py:92 | `finditer` from a position reports occurrences only. They start at or after that position, come in increasing order without overlap, and every position where an occurrence starts is inside one of them |
| Extractor.FindAll | drcleaner.py:92 | the same, for the whole document |
| Extractor.LeftmostScanUnique | drcleaner.py:92 | any list of matches with those properties is the `finditer` list, so the properties characterise the scan completely |
| Extractor.NoMatchesIffNoMarker | drcleaner.py:92-93 | the match list is empty exactly when no marker starts anywhere in the document |
| Extractor.NoOpenerNoMatches | drcleaner.py:92-99 | a document with no `(` directly followed by `[` (plain links such as `[Source](url)`) has no matches |
| Citation.HasListMarker | drcleaner.py:53 | the test holds exactly when the citation starts with `- ` or with `* ` |
| Citation.DropListMarker | drcleaner.py:53-54 | one leading `- ` or `* ` is removed and nothing else, and the result is a suffix of the citation behind a removable prefix |
| Citation.CleanupAsWritten | drcleaner.py:53-56 | the cleanup as written raises exactly when, after the list-marker step, the citation is a digit alone or a digit and `.`. Otherwise it returns a suffix of the citation whose removed prefix is at most one list marker and at most one `D. ` numbering, and it removes the longest such prefix the citation has, so a present marker and a present numbering are both removed |
| Citation.Cleanup | drcleaner.py:53-56 | the intended cleanup returns a suffix behind such a removable prefix and removes the longest such prefix the citation has, so a present marker and a present numbering are both removed; it keeps a short numbered citation unchanged after the list-marker step |
| Citation.AsWrittenAgrees | drcleaner.py:53-56 | the code as written gives the intended cleanup on every citation except the short numbered ones, on which it raises |
| Citation.NotConfigured | drcleaner.py:28 | the text returned without a model is bracketed and is the only placeholder whose second character is `G` |
| Citation.BlockedPlaceholder | drcleaner.py:60 | the text returned for a blocked prompt is bracketed, ends with the url just before the closing `]`, and says `blocked` at position 16 |
| Citation.FailedPlaceholder | drcleaner.py:63 | the text returned for a reply with no parts and no block reason is bracketed, ends with the url just before the closing `]`, and says `failed` at position 16 |
| Citation.ErrorPlaceholder | drcleaner.py:67 | the text returned when an exception was raised is bracketed, ends with the url just before the closing `]`, and says `error` at position 16 |
| Citation.PlaceholdersDistinct | drcleaner.py:25-67 | the four placeholders are pairwise different for any urls, and two placeholders of one kind are equal only for the same url, so a stored placeholder tells which failure happened and for which url |
| Citation.GetApaCitation | drcleaner.py:25-67 | no model gives the not-configured placeholder; a blocked reply, a reply with no parts and no block reason, and an exception each give their own placeholder; an answer gives its stripped and cleaned text, except that a short numbered answer gives the error placeholder |
| Citation.MultiDigitNumberingKept | drcleaner.py:55-56 | a citation starting with two digits, such as `10. ...`, is left unchanged |
| Citation.NumberingPrefixRemoved | drcleaner.py:55-56 | `1. text` becomes `text`, in the code as written and in the intended cleanup |
| Citation.MarkedNumberingRemoved | drcleaner.py:53-56 | `* 1. text` becomes `text`: the list marker and then the numbering are both removed |
| Citation.OneListMarkerRemoved | drcleaner.py:53-54 | `- - text` keeps its second marker: only one list marker is removed |
| Citation.EmptyCitationIffBlank | drcleaner.py:50-57 | an answered reply yields an empty citation exactly when its text is all white space |
| Citation.ShortCitationRaises | drcleaner.py:55 | the answer `7` makes the code as written raise and yields the error placeholder, while the intended cleanup keeps `7` |
| Resolver.UniqueUrls | drcleaner.py:104-108 | the first loop builds the keys `Dedup` describes |
| Resolver.DedupElements | drcleaner.py:104-108 | the keys hold every matched url, each once, and nothing else |
| Resolver.DedupOrder | drcleaner.py:104-108 | the keys are ordered by first appearance in the document |
| Resolver.KeysAreMatchedUrls | drcleaner.py:104-108 | a url is a key exactly when some match carries it |
| Resolver.Fallback | drcleaner.py:117 | the stored citation is never empty, and a non-empty citation is stored as it is |
| Resolver.Numbered | drcleaner.py:113-118 | after the numbering loop, the key at position k holds number k+1 and its citation or the fallback, and there are no other keys |
| Resolver.AssignNumbers | drcleaner.py:113-118 | the numbering loop with its `current_number` counter builds exactly the dictionary `Numbered` describes |
| Resolver.NumbersContiguous | drcleaner.py:113-118 | the numbers are exactly 1..N, one url each |
| Resolver.NumberingByFirstAppearance | drcleaner.py:104-118 | every matched url is numbered, and url u gets a smaller number than v exactly when u first appears before v |
| Resolver.KeyOrderIsNumberOrder | drcleaner.py:156 | the numbers increase strictly along the key order |
| Resolver.SortedItemsFollowKeyOrder | drcleaner.py:156-158 | any listing of the keys in ascending number is the key order itself, so the sorted loop walks the keys in order |
| Rewriter.Replacements | drcleaner.py:126-135 | match k is replaced by the link of its url's number when the url is a key; otherwise, on the warning branch, its marker text stays as it was |
| Rewriter.UnknownUrlsLeftAlone | drcleaner.py:126-135 | when no matched url is a key, every turn takes the warning branch and the loop gives back the document unchanged |
| Rewriter.ReplaceBackward | drcleaner.py:124-135 | replacing the spans from the last match to the first gives the forward assembly of unchanged gaps and replacements |
| Rewriter.AssembleOwnSpans | drcleaner.py:124-135 | putting every span's own text back gives the original document, so the assembly changes nothing outside the spans |
| Rewriter.AssembleLength | drcleaner.py:124-132 | the length of the result is the document's length, minus the spans, plus the replacements |
| Rewriter.LinkParts | drcleaner.py:129 | a link is `[`, the numeral of n, which reads back as n and holds no `]`, then `](#source-`, the same numeral and `)` |
| Rewriter.AnchorLineParts | drcleaner.py:162 | a Sources line is `<a id="source-`, the numeral of n, `"></a>`, the numeral again, `. `, the citation, and a newline that ends the line |
| Rewriter.LinkTargetsAnchor | drcleaner.py:162 | the fragment after the `#` of the link for number n (line 129) is exactly the id of the anchor on the line for n |
| Rewriter.SourcesHeadingLine | drcleaner.py:154 | the section starts with an empty line, then the line `# Sources`, then an empty line |
| Rewriter.LinkInjective | drcleaner.py:129 | distinct numbers give distinct links |
| Rewriter.AnchorOfEveryKey | drcleaner.py:154-162 | each url's number n is a line of the section, and line n carries that url's anchor and citation |
| Rewriter.BuildSourcesSection | drcleaner.py:154-162 | the accumulation loop gives the heading followed by the anchored lines in key order |
| Pipeline.ReformatMarkdown | drcleaner.py:91-164 | the steps of `reformat_markdown` give `Reformatted`: nothing when there is no marker, otherwise the rewritten text, right-stripped, followed by the Sources section |
| Pipeline.NoOutputIffNoMarker | drcleaner.py:92-99 | nothing is written exactly when no marker starts anywhere in the document |
| Pipeline.InlineLinks | drcleaner.py:124-135 | every match is replaced by the link of its url's number, so the warning branch is never taken; two markers get the same link exactly when they carry the same url |
| Pipeline.LinksHaveAnchors | drcleaner.py:124-162 | the marker of url u becomes `[n](#source-n)` with n the number of u, and line n of the Sources section is the anchor `source-n` with the citation of u |
| Pipeline.OutputShape | drcleaner.py:150-164 | the output is the right-stripped rewritten text, then the heading, then one anchored line per unique url (as many lines as urls, not as markers), with the url first appearing k-th on line k under number k |
| Pipeline.StoredCitations | drcleaner.py:50-67 | with the service's replies, every stored citation is non-empty; it is the fallback exactly when the answer is all white space, and otherwise what `get_apa_citation` returned |

## Left out

- The service calls are not modelled: `configure_gemini`, `genai.GenerativeModel`, `generate_content` with its prompt and safety settings (drcleaner.py:16-23, 29-47). They are foreign library calls.
  - The pipeline takes the citation of each url as the parameter `cite`.
  - `get_apa_citation` takes the reply as the datatype `Reply`.
  - An exception raised by `response.text` is the case `Raised`, like one raised by the call.
- The model does not check that `reformat_markdown` stops when configuration fails (drcleaner.py:76-79), so in the pipeline `cite` is any function.
- `time.sleep(API_REQUEST_DELAY)` (drcleaner.py:69) is left out. It only affects timing.
- File reading and writing and their error branches (drcleaner.py:81-89, 166-171) are left out, and so are all console output and the command line with its environment-variable lookup (drcleaner.py:174-189).
  - The pipeline starts from the content read and ends with the content to write.
  - When there is no marker it returns `None` and nothing is written.
- The commented-out removal of an existing Sources section (drcleaner.py:139-148) is not modelled, because it never runs.
- The first loop stores `{'apa': None, 'number': None}` for each new key (drcleaner.py:108). The model represents that intermediate state by the key sequence alone. The dictionary values exist only after the numbering loop.
- Python's `sorted` (drcleaner.py:156) is not modelled as a sorting algorithm. The Sources loop walks the keys in order. `SortedItemsFollowKeyOrder` proves that this is the order `sorted` produces.
- Citation.CleanupAsWritten: `str.isdigit` is modelled on the ASCII digits `0`-`9` only. Python also accepts other Unicode decimal digits (for example Arabic-Indic digits or superscripts) as the first character of a numbering prefix.
- Citation.Cleanup: the same restriction to ASCII digits applies.
- Regular expressions are modelled only for the one fixed pattern `SOURCE_PATTERN`, as a scanner. There is no general regular-expression engine.
- drcleaner.py has no concurrent worker pool, no fetch cache, no delimiter-based extraction of the citation and no retry policy, and the model has none either. Citations are fetched one at a time inside the numbering loop.

## Findings

| source | as written | input that shows it | evidently intended | confidence | as-written member | corrected member |
|---|---|---|---|---|---|---|
| drcleaner.py:55 | `citation[1]` and `citation[2]` are read after checking only that the citation is non-empty and starts with a digit. A citation of one digit, or of a digit and `.`, raises `IndexError`. The exception handler then returns `[APA generation error for URL: ...]` instead of the citation | a reply whose text is `7` (or `7.`) | check the length first and keep such a citation unchanged; only a `D. ` prefix followed by text is removed | high that it raises; not executed | Citation.ShortCitationRaises | Citation.Cleanup |
