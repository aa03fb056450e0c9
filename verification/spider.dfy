/**
  The whole of one `parse_duckduckgo_results` call, leaving out archival and logging:
  one verification request per candidate shop, then at most one next-page request.
*/
module Spider {
  import opened Wrappers
  import opened Urls
  import Links
  import Pagination

  /** What the callback yields: nothing at all when it raises, otherwise one request per
      candidate followed by at most one next-page request. */
  datatype PageOutput = Raised | Yielded(candidates: seq<string>, nextPage: Option<string>)

  /** One results page, given the hrefs its link XPath extracted and its anchors. Nothing is
      yielded before the link loop ends, so an href that makes `urlparse` raise also
      suppresses the candidates before it and the pagination request. */
  function ParseResultsPage(hrefs: seq<string>, anchors: seq<Pagination.Anchor>, codec: Codec): (r: PageOutput)
    ensures r.Raised? <==> exists i :: 0 <= i < |hrefs| && Links.Resolve(hrefs[i], codec) == Links.Raises
    ensures r.Yielded? ==> Links.Distinct(r.candidates)
                           && (forall k :: 0 <= k < |r.candidates| ==> IsHttp(r.candidates[k]))
                           && (forall x :: x in r.candidates <==>
                                 exists i :: 0 <= i < |hrefs| && Links.Resolve(hrefs[i], codec) == Links.Emit(x))
                           && Links.InEmissionOrder(Links.Verdicts(hrefs, codec), r.candidates)
                           && r.nextPage == Pagination.NextPage(anchors)
  {
    match Links.Candidates(hrefs, codec)
    case Aborted => Raised
    case Targets(urls) =>
      Links.CandidatesOrder(hrefs, codec);
      Yielded(urls, Pagination.NextPage(anchors))
  }
}
