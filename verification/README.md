# webscr spider core in Dafny

This project models the decision logic of the `webscr` Scrapy spider
(`webscr/spiders/webscr.py`). The spider finds Shoper-based online shops. It sends
three fixed queries to DuckDuckGo Lite. From each results page it takes the outbound
links as candidate shops and follows the "next page" link. It then classifies each
candidate page with a three-stage Shoper heuristic. Every callback is modelled as a
pure function over the strings it extracts from a response.

Modules:

- `Wrappers`: `Option`, which stands for Python's "value or `None`".
- `Text`: the `str` operations the spider uses. These are `startswith`, `endswith`,
  `in`, ASCII `lower`, `join` and `split`. `split` has a round-trip lemma with `join`, and
  `in` is characterised by the positions where the needle starts.
- `Urls`: the parts of `urllib.parse` the spider depends on. `urlsplit` is modelled as
  a netloc/path/query/fragment splitter. That includes its ValueError on an unmatched
  square bracket and its removal of tab, CR and LF. `parse_qs` with default options
  becomes a first-value lookup. `quote_plus` and `unquote` are left abstract, as the
  two functions of a `Codec`.
- `Links`: the per-href verdict of the link loop and the first-seen deduplication.
- `Queries`: the start URLs and the archive filename derived from a results-page URL.
- `Pagination`: the choice of the next-page href.
- `Shoper`: `verify_shoper`, i.e. the staged detection and the record it yields.
- `Spider`: what one results-page callback yields as a whole.

## Model

| member | source | states |
|---|---|---|
| `Text.JoinSplit` | webscr/spiders/webscr.py:34 | the pieces `str.split` produces, joined again with the separator, give back the original string |
| `Urls.CompleteScheme` | webscr/spiders/webscr.py:70-71 | a `//` link becomes `https:` + link, which is an HTTP(S) link; other links are unchanged |
| `Urls.SplitAuthorityRecompose` | webscr/spiders/webscr.py:77 | `urlparse` splits the text after the scheme into netloc, path, query and fragment; each part stops at its delimiter and the parts put back together give the input |
| `Urls.SplitRecompose` | webscr/spiders/webscr.py:77 | conversely, every such decomposition is exactly what `urlparse` reads back from its recomposition |
| `Urls.RemoveUnsafe` | webscr/spiders/webscr.py:77 | `urlparse` first deletes tab, CR and LF: none is left afterwards, and a URL without them is left unchanged |
| `Urls.RemoveUnsafeConcat` | webscr/spiders/webscr.py:77 | the deletion works character by character, so the remaining characters keep their order |
| `Urls.RemoveUnsafeCounts` | webscr/spiders/webscr.py:77 | every character other than tab, CR and LF keeps its number of occurrences |
| `Urls.ParseFieldKept` | webscr/spiders/webscr.py:81 | `parse_qs` keeps a field exactly when an `=` in it is followed by a value, so blank values count as absent |
| `Urls.FirstValueFirst` | webscr/spiders/webscr.py:81-82 | `qs.get('uddg', [None])[0]` is present exactly when some kept field is named `uddg`, and then it is the value of the first such field |
| `Links.Resolve` | webscr/spiders/webscr.py:66-95 | an emitted URL always starts with `http://` or `https://`; an empty href, or one that is not HTTP(S) after `//` completion, is skipped |
| `Links.RaisesIff` | webscr/spiders/webscr.py:77 | an href aborts the callback exactly when it is non-empty, HTTP(S) after `//` completion, and `urlparse` raises on its netloc (an unmatched square bracket) |
| `Links.ProtocolRelativeCompleted` | webscr/spiders/webscr.py:69-75 | a `//` href is treated exactly as its `https:` completion, which passes the scheme test, so it is never dropped for lacking a scheme |
| `Links.ExternalLinkKept` | webscr/spiders/webscr.py:91-95 | an HTTP(S) href whose netloc parses and does not mention `duckduckgo.com` is emitted unchanged |
| `Links.WrapperUnwrapped` | webscr/spiders/webscr.py:80-90 | for a redirect link (host ending in `duckduckgo.com`, path starting with `/l`), the verdict is the decoded and completed `uddg` destination; nothing is emitted if `uddg` is missing or empty or the destination is not HTTP(S) |
| `Links.InternalLinkDropped` | webscr/spiders/webscr.py:91-94 | a non-wrapper href whose netloc contains `duckduckgo.com` is never emitted |
| `Links.Dedup` | webscr/spiders/webscr.py:97-99 | the seen-set loop keeps exactly the emitted URLs, each once |
| `Links.DedupOrder` | webscr/spiders/webscr.py:97-99 | the kept URLs are listed in the order of their first emission |
| `Links.Candidates` | webscr/spiders/webscr.py:63-99 | the link loop aborts exactly when some href makes `urlparse` raise; otherwise the candidates are pairwise distinct HTTP(S) URLs, and a URL is a candidate exactly when some raw href resolves to it |
| `Links.CandidatesOrder` | webscr/spiders/webscr.py:63-99 | the candidates are ordered by the position of the first raw href yielding each |
| `Links.SurvivorsOccurOnce` | webscr/spiders/webscr.py:97-99 | every URL that a surviving href resolves to occurs exactly once among the candidates, and no other URL occurs |
| `Links.CollectTargets` | webscr/spiders/webscr.py:63-99 | the loop with its `seen` set and `unique_targets` list computes the outcome described by `Candidates` |
| `Queries.StartUrls` | webscr/spiders/webscr.py:25-27 | one start URL per query, in list order, each equal to the endpoint, the encoded query and `&kl=pl-pl` |
| `Queries.QueryKeyRoundTrip` | webscr/spiders/webscr.py:34 | `url.split("q=")[-1].split("&")[0]` on a start URL gives back the encoded query, if the encoding has no `&` and no `=` |
| `Queries.ArchiveFilenameOfStartUrl` | webscr/spiders/webscr.py:26-34 | the archive file of the start URL for a query is `ddg_lite_results_` + encoded query + `.html` |
| `Pagination.NextHref` | webscr/spiders/webscr.py:114 | the XPath `.get()` finds an href exactly when some anchor whose text contains `Next` or `Następne` has one, and it returns the first such href |
| `Pagination.NextPageFirstLabelled` | webscr/spiders/webscr.py:114-118 | a next-page request is made exactly when that first href exists and is not empty, and it follows that href |
| `Shoper.FirstShoperScript` | webscr/spiders/webscr.py:133-138 | the script loop breaks exactly when some lower-cased `src` contains `shoper`, and it breaks at the first one |
| `Shoper.DetectionIsDisjunction` | webscr/spiders/webscr.py:121-138 | the staged checks detect a page exactly when the generator matches, or the footer matches, or some script matches |
| `Shoper.GeneratorMatchSuffices` | webscr/spiders/webscr.py:123-127 | a generator match settles detection at the first stage, whatever the footer and scripts hold |
| `Shoper.IsShoper` | webscr/spiders/webscr.py:121-138 | the flag-and-break code as written sets `is_shoper` exactly when the staged checks detect the page |
| `Shoper.VerifyShoper` | webscr/spiders/webscr.py:140-147 | a record is yielded exactly when the page is detected; it has `detected = true`, the response URL, the title and the raw generator content, even when the footer or a script did the detecting |
| `Spider.ParseResultsPage` | webscr/spiders/webscr.py:57-118 | a results page yields nothing at all when an href makes `urlparse` raise; otherwise it yields distinct HTTP(S) candidates, exactly the URLs some href resolves to, in the order of the first href yielding each, then the next-page href |

## Left out

- Scrapy plumbing is left out because it is framework configuration. This covers
  `scrapy.Request`, callbacks, `meta={'handle_httpstatus_list': ...}` and
  `custom_settings` (delay, cookies, user agent, robots.txt).
- `response.follow` resolves the next-page href against the page URL. This resolution is
  Scrapy's and is not modelled, so `Pagination.NextPage` returns the raw href.
- XPath and CSS evaluation over HTML is left out: it is library behaviour. Each callback
  takes the extracted hrefs, anchors, generator, title, footer text nodes and script
  sources as inputs. `Pagination.Anchor` records an anchor's first text node, because
  that is what `contains(text(), ...)` compares.
- HTML archival (`job.save_content`, `open`/`write` and their fallbacks) is file and
  cloud I/O whose failures are swallowed. Only the filename string is modelled.
- Logging calls are left out because they have no behavioural effect.
- `quote_plus` and `unquote` are abstract functions in `Urls.Codec`.
- `Queries.QueryKeyRoundTrip` takes as a hypothesis that the encoding of a query has no `&`
  and no `=`. `quote_plus` ensures this, but its internals are not modelled.
- `Text.Lower` maps only ASCII letters. Python's full Unicode case mapping is a library
  detail. It does not affect the ASCII needles `shoper`, `shoper.pl` and
  `oprogramowanie shoper`, except through exotic characters.
- `Links.RaisesIff`: this lemma models only the unmatched-bracket ValueError of `urlsplit`.
  `urlsplit` also raises in two other cases, and the model does not:
  - The bracketed-host validation (`_check_bracketed_netloc`) rejects a bracketed host that
    is not an IP literal. For example, `https://[shop]/` aborts the page in the code, but
    the model gives `Emit("https://[shop]/")`.
  - The NFKC check (`_checknetloc`) rejects a non-ASCII netloc that normalises to a
    delimiter.
  Both depend on IP-address parsing and on Unicode normalisation tables, which are not
  modelled. The "aborts exactly when" clauses of `Links.Candidates` and
  `Spider.ParseResultsPage` inherit the same gap.
- `Links.CollectTargets` runs over the verdicts of the hrefs rather than the hrefs
  themselves. Each verdict depends only on its own href, and nothing is yielded before
  the loop ends. The result is therefore the same as interleaving the two.
- `urlparse` also splits `;params` off the last path segment, and this is not modelled.
  The path always begins with `/`, so the cut can never change whether it starts with `/l`.
- The archive filename is computed from whatever URL it is given. If the fetch was
  redirected, `response.url` may differ from the start URL.
- Decoded wrapper destinations are not checked again for `duckduckgo.com`, exactly as in
  the code. The model therefore does not claim that no DuckDuckGo URL is ever emitted.
- Request scheduling, concurrency and transport failures are left out: they belong to
  the framework.
