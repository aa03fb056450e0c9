/**
  The search requests of `start_requests` and the archive filename that
  `parse_duckduckgo_results` derives from a results-page URL.
*/
module Queries {
  import opened Text
  import opened Urls

  /** The DuckDuckGo Lite endpoint up to the query parameter, and the locale parameter after it. */
  const Endpoint := "https://html.duckduckgo.com/lite/?q="
  const LocaleParam := "&kl=pl-pl"

  /** The fixed search queries of `start_requests`. */
  const SearchQueries: seq<string> := [
    "Sklep internetowy Shoper.pl -site:shoper.pl",
    "Oprogramowanie Shoper -site:shoper.pl",
    "Powered by Shoper -site:shoper.pl"
  ]

  const ArchivePrefix := "ddg_lite_results_"
  const ArchiveSuffix := ".html"

  /** The DuckDuckGo Lite results URL for one encoded query, in the Polish locale. */
  function StartUrl(query: string, codec: Codec): string
  {
    Endpoint + codec.quotePlus(query) + LocaleParam
  }

  /** One start URL per query, in list order. */
  function StartUrls(queries: seq<string>, codec: Codec): (urls: seq<string>)
    ensures |urls| == |queries|
    ensures forall i :: 0 <= i < |queries| ==> urls[i] == StartUrl(queries[i], codec)
  {
    if |queries| == 0 then []
    else [StartUrl(queries[0], codec)] + StartUrls(queries[1..], codec)
  }

  /** The requests `start_requests` issues. */
  function StartRequests(codec: Codec): seq<string>
  {
    StartUrls(SearchQueries, codec)
  }

  /** `url.split("q=")[-1].split("&")[0]` */
  function QueryKey(url: string): string
  {
    Split(Last(Split(url, "q=")), "&")[0]
  }

  /** The name under which a results page is archived: the text after the last `q=` of
      its URL, up to the first `&`, between a fixed prefix and `.html`. */
  function ArchiveFilename(url: string): string
  {
    ArchivePrefix + QueryKey(url) + ArchiveSuffix
  }

  /** No `q=` starts anywhere in an encoded query followed by the locale parameter,
      provided the encoding holds no `=`. */
  lemma NoQueryMarkerAfter(e: string)
    requires '=' !in e
    ensures forall i :: 0 <= i < |e + LocaleParam| ==> !StartsWith((e + LocaleParam)[i..], "q=")
  {
    var t := e + LocaleParam;
    forall i | 0 <= i < |t|
      ensures !StartsWith(t[i..], "q=")
    {
      if i + 1 < |t| {
        if i + 1 < |e| {
          assert t[i + 1] == e[i + 1];
        } else if i + 1 == |e| + 3 {
          assert t[i] == LocaleParam[2];
        } else {
          assert t[i + 1] == LocaleParam[i + 1 - |e|];
        }
        assert t[i..][..2] == [t[i], t[i + 1]];
      }
    }
  }

  /** The endpoint holds exactly one `q=`, at its end. */
  lemma SplitAfterEndpoint(t: string)
    ensures Split(Endpoint + t, "q=") == ["https://html.duckduckgo.com/lite/?"] + SplitFrom(t, "q=", "")
  {
    var x := "https://html.duckduckgo.com/lite/?";
    var rest := "q=" + t;
    assert Endpoint == x + "q=";
    assert Endpoint + t == x + rest;
    assert 'q' !in x;
    forall i | 0 <= i < |x|
      ensures !StartsWith((x + rest)[i..], "q=")
    {
      assert (x + rest)[i] == x[i];
    }
    SplitFromSkip(x, rest, "q=", "");
    assert "" + x == x;
    assert rest[..2] == "q=" && rest[2..] == t;
  }

  /** The text after the only `q=` of a start URL is the encoded query and the locale parameter. */
  lemma AfterQueryMarker(e: string)
    requires '=' !in e
    ensures Last(Split(Endpoint + e + LocaleParam, "q=")) == e + LocaleParam
  {
    var t := e + LocaleParam;
    assert Endpoint + e + LocaleParam == Endpoint + t;
    SplitAfterEndpoint(t);
    NoQueryMarkerAfter(e);
    SplitFromNoSeparator(t, "q=", "");
    assert "" + t == t;
  }

  /** The text before the first `&` of an encoded query and the locale parameter is the
      encoded query. */
  lemma BeforeAmpersand(e: string)
    requires '&' !in e
    ensures Split(e + LocaleParam, "&")[0] == e
  {
    forall i | 0 <= i < |e|
      ensures !StartsWith((e + LocaleParam)[i..], "&")
    {
      assert (e + LocaleParam)[i] == e[i];
    }
    SplitFromSkip(e, LocaleParam, "&", "");
    assert "" + e == e;
    assert LocaleParam[..1] == "&";
    assert SplitFrom(LocaleParam, "&", e)[0] == e;
  }

  /** The query key of a start URL is the encoded query, when the encoding holds no `&`
      and no `=` (which `quote_plus` always percent-encodes). */
  lemma QueryKeyRoundTrip(e: string)
    requires '&' !in e && '=' !in e
    ensures QueryKey(Endpoint + e + LocaleParam) == e
  {
    AfterQueryMarker(e);
    BeforeAmpersand(e);
  }

  /** The archive of a start URL's results page is named after the encoded query. */
  lemma ArchiveFilenameOfStartUrl(query: string, codec: Codec)
    requires '&' !in codec.quotePlus(query) && '=' !in codec.quotePlus(query)
    ensures ArchiveFilename(StartUrl(query, codec)) == ArchivePrefix + codec.quotePlus(query) + ArchiveSuffix
  {
    QueryKeyRoundTrip(codec.quotePlus(query));
  }
}
