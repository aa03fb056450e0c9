/**
  Candidate-link extraction of `parse_duckduckgo_results`: each raw `href` taken from the
  results page is completed, filtered and, for DuckDuckGo redirect wrappers, unwrapped to
  its destination; the surviving URLs are then deduplicated in first-seen order.
*/
module Links {
  import opened Wrappers
  import opened Text
  import opened Urls

  const DdgHost := "duckduckgo.com"

  /** What the loop body does with one href: `continue`, keep a URL, or raise
      (the ValueError of `urlparse`, which ends the whole callback). */
  datatype Verdict = Skip | Emit(url: string) | Raises

  /** A DuckDuckGo redirect link: the host ends with `duckduckgo.com`, the path starts with `/l`. */
  predicate IsWrapper(u: UrlParts)
  {
    EndsWith(u.netloc, DdgHost) && StartsWith(u.path, "/l")
  }

  /** The destination of a redirect link: the first `uddg` value (absent or empty means
      none), percent-decoded once more, completed if protocol-relative, kept only if HTTP(S). */
  function UnwrapTarget(u: UrlParts, codec: Codec): (r: Option<string>)
    ensures r.Some? ==> IsHttp(r.value)
  {
    match QueryValue(u.QueryText(), "uddg", codec)
    case None => None
    case Some(t) =>
      if t == "" then None
      else
        var target := CompleteScheme(codec.unquote(t));
        if IsHttp(target) then Some(target) else None
  }

  /** The verdict on an HTTP(S) link `h` that `urlparse` split into `u`: raise on a bad
      netloc, unwrap a redirect link, drop other DuckDuckGo links, keep the rest. */
  function Classify(h: string, u: UrlParts, codec: Codec): (v: Verdict)
    requires IsHttp(h)
    ensures v.Emit? ==> IsHttp(v.url)
  {
    if !ValidNetloc(u.netloc) then Raises
    else if IsWrapper(u) then
      match UnwrapTarget(u, codec)
      case Some(t) => Emit(t)
      case None => Skip
    else if Contains(u.netloc, DdgHost) then Skip
    else Emit(h)
  }

  /** The body of the link loop of `parse_duckduckgo_results` for one raw href. */
  function Resolve(href: string, codec: Codec): (v: Verdict)
    ensures v.Emit? ==> IsHttp(v.url)
    ensures href == "" || !IsHttp(CompleteScheme(href)) ==> v == Skip
  {
    if href == "" then Skip
    else
      var h := CompleteScheme(href);
      if !IsHttp(h) then Skip
      else Classify(h, SplitUrl(h), codec)
  }

  /** A protocol-relative href is treated exactly as its `https:` completion, which is HTTP(S):
      it is never dropped for lacking a scheme. */
  lemma ProtocolRelativeCompleted(href: string, codec: Codec)
    requires StartsWith(href, "//")
    ensures IsHttp("https:" + href)
    ensures Resolve(href, codec) == Resolve("https:" + href, codec)
  {
    assert ("https:" + href)[..8] == "https://";
    assert ("https:" + href)[..2] == "ht";
  }

  /** An ordinary HTTP(S) link, whose host is not DuckDuckGo's, is emitted unchanged. */
  lemma ExternalLinkKept(h: string, codec: Codec)
    requires IsHttp(h)
    requires ValidNetloc(SplitUrl(h).netloc)
    requires !Contains(SplitUrl(h).netloc, DdgHost)
    ensures Resolve(h, codec) == Emit(h)
  {
    HttpStartsWithH(h);
    var u := SplitUrl(h);
    if EndsWith(u.netloc, DdgHost) {
      EndsWithContains(u.netloc, DdgHost);
    }
    assert Classify(h, u, codec) == Emit(h);
  }

  /** A redirect link yields the decoded destination of its first `uddg` field, completed
      if protocol-relative; it yields nothing when that field is missing or empty or the
      destination is not HTTP(S). */
  lemma WrapperUnwrapped(href: string, codec: Codec)
    requires href != "" && IsHttp(CompleteScheme(href))
    requires ValidNetloc(SplitUrl(CompleteScheme(href)).netloc)
    requires IsWrapper(SplitUrl(CompleteScheme(href)))
    ensures var uddg := QueryValue(SplitUrl(CompleteScheme(href)).QueryText(), "uddg", codec);
            && Resolve(href, codec) != Raises
            && (Resolve(href, codec).Emit? <==>
                  uddg.Some? && uddg.value != "" && IsHttp(CompleteScheme(codec.unquote(uddg.value))))
            && (Resolve(href, codec).Emit? ==>
                  Resolve(href, codec).url == CompleteScheme(codec.unquote(uddg.value)))
  {
  }

  /** An href aborts the callback exactly when it is HTTP(S) after completion and
      `urlparse` rejects its netloc for an unmatched square bracket. */
  lemma RaisesIff(href: string, codec: Codec)
    ensures Resolve(href, codec) == Raises <==>
              href != "" && IsHttp(CompleteScheme(href))
              && !ValidNetloc(SplitUrl(CompleteScheme(href)).netloc)
  {
    if href != "" && IsHttp(CompleteScheme(href)) {
      var h := CompleteScheme(href);
      var u := SplitUrl(h);
      assert Resolve(href, codec) == Classify(h, u, codec);
      assert Classify(h, u, codec) == Raises <==> !ValidNetloc(u.netloc);
    }
  }

  /** Any other link whose host mentions `duckduckgo.com` is never emitted. */
  lemma InternalLinkDropped(href: string, codec: Codec)
    requires href != "" && IsHttp(CompleteScheme(href))
    requires !IsWrapper(SplitUrl(CompleteScheme(href)))
    requires Contains(SplitUrl(CompleteScheme(href)).netloc, DdgHost)
    ensures !Resolve(href, codec).Emit?
  {
  }

  predicate Distinct(xs: seq<string>)
  {
    forall i, j :: 0 <= i < j < |xs| ==> xs[i] != xs[j]
  }

  /** The `seen`-set step of the link loop over the verdicts: each emitted URL is appended
      the first time it appears, so the result lists first emissions in order. */
  function Dedup(vs: seq<Verdict>): (r: seq<string>)
    ensures forall x :: x in r <==> Emit(x) in vs
    ensures Distinct(r)
    decreases |vs|
  {
    if |vs| == 0 then []
    else
      var prefix := vs[..|vs| - 1];
      assert vs == prefix + [vs[|vs| - 1]];
      var kept := Dedup(prefix);
      match vs[|vs| - 1]
      case Emit(u) => if u in kept then kept else kept + [u]
      case _ => kept
  }

  /** The position of the first verdict that emits `x`. */
  function FirstEmit(vs: seq<Verdict>, x: string): (k: nat)
    requires Emit(x) in vs
    ensures k < |vs| && vs[k] == Emit(x)
    ensures forall j :: 0 <= j < k ==> vs[j] != Emit(x)
  {
    if vs[0] == Emit(x) then 0
    else
      assert Emit(x) in vs[1..];
      1 + FirstEmit(vs[1..], x)
  }

  /** The first emission of `x` is the only position with the two properties FirstEmit promises. */
  lemma FirstEmitUnique(vs: seq<Verdict>, x: string, k: nat)
    requires k < |vs| && vs[k] == Emit(x)
    requires forall j :: 0 <= j < k ==> vs[j] != Emit(x)
    ensures FirstEmit(vs, x) == k
  {
  }

  /** Every element of `r` is emitted in `vs`, and `r` lists them by first emission. */
  ghost predicate InEmissionOrder(vs: seq<Verdict>, r: seq<string>)
  {
    && (forall k :: 0 <= k < |r| ==> Emit(r[k]) in vs)
    && (forall i, j :: 0 <= i < j < |r| ==> FirstEmit(vs, r[i]) < FirstEmit(vs, r[j]))
  }

  /** Extending the verdicts at the end keeps the order of what was already emitted. */
  lemma OrderExtends(vs: seq<Verdict>, v: Verdict, r: seq<string>)
    requires InEmissionOrder(vs, r)
    ensures InEmissionOrder(vs + [v], r)
  {
    forall k | 0 <= k < |r|
      ensures Emit(r[k]) in vs + [v] && FirstEmit(vs + [v], r[k]) == FirstEmit(vs, r[k])
    {
      var f := FirstEmit(vs, r[k]);
      assert (vs + [v])[f] == vs[f];
      FirstEmitUnique(vs + [v], r[k], f);
    }
  }

  /** Dedup lists the URLs in the order of their first emission. */
  lemma {:induction false} DedupOrder(vs: seq<Verdict>)
    ensures InEmissionOrder(vs, Dedup(vs))
    decreases |vs|
  {
    if |vs| > 0 {
      var prefix := vs[..|vs| - 1];
      var last := vs[|vs| - 1];
      assert vs == prefix + [last];
      var kept := Dedup(prefix);
      DedupOrder(prefix);
      OrderExtends(prefix, last, kept);
      if last.Emit? && last.url !in kept {
        var u := last.url;
        FirstEmitUnique(vs, u, |vs| - 1);
        var r := kept + [u];
        forall i, j | 0 <= i < j < |r|
          ensures FirstEmit(vs, r[i]) < FirstEmit(vs, r[j])
        {
          if j == |r| - 1 {
            assert r[i] == kept[i];
          } else {
            assert r[i] == kept[i] && r[j] == kept[j];
          }
        }
      }
    }
  }

  /** The verdicts of all raw hrefs, in page order. */
  function Verdicts(hrefs: seq<string>, codec: Codec): (vs: seq<Verdict>)
    ensures |vs| == |hrefs|
  {
    if |hrefs| == 0 then [] else [Resolve(hrefs[0], codec)] + Verdicts(hrefs[1..], codec)
  }

  lemma {:induction false} VerdictsAt(hrefs: seq<string>, codec: Codec)
    ensures forall i :: 0 <= i < |hrefs| ==> Verdicts(hrefs, codec)[i] == Resolve(hrefs[i], codec)
  {
    if |hrefs| > 0 {
      VerdictsAt(hrefs[1..], codec);
    }
  }

  /** What the link loop leaves behind: the callback aborted, or the candidate URLs. */
  datatype Outcome = Aborted | Targets(urls: seq<string>)

  /** The link loop over the verdicts: a raising href aborts the callback, otherwise the
      emitted URLs are deduplicated. */
  function Collect(vs: seq<Verdict>): Outcome
  {
    if Raises in vs then Aborted else Targets(Dedup(vs))
  }

  /** The candidates of one results page: the outcome of the whole link loop over its hrefs. */
  function Candidates(hrefs: seq<string>, codec: Codec): (o: Outcome)
    ensures o.Aborted? <==> exists i :: 0 <= i < |hrefs| && Resolve(hrefs[i], codec) == Raises
    ensures o.Targets? ==> Distinct(o.urls)
    ensures o.Targets? ==> forall k :: 0 <= k < |o.urls| ==> IsHttp(o.urls[k])
    ensures o.Targets? ==> forall x :: x in o.urls <==>
              exists i :: 0 <= i < |hrefs| && Resolve(hrefs[i], codec) == Emit(x)
  {
    var vs := Verdicts(hrefs, codec);
    VerdictsAt(hrefs, codec);
    assert Raises in vs <==> exists i :: 0 <= i < |hrefs| && Resolve(hrefs[i], codec) == Raises;
    assert forall x :: Emit(x) in vs <==> exists i :: 0 <= i < |hrefs| && Resolve(hrefs[i], codec) == Emit(x);
    var o := Collect(vs);
    assert o.Targets? ==> forall k :: 0 <= k < |o.urls| ==> Emit(o.urls[k]) in vs;
    o
  }

  /** Candidates are ordered by the position of the first raw href that yields them. */
  lemma CandidatesOrder(hrefs: seq<string>, codec: Codec)
    requires Candidates(hrefs, codec).Targets?
    ensures InEmissionOrder(Verdicts(hrefs, codec), Candidates(hrefs, codec).urls)
  {
    DedupOrder(Verdicts(hrefs, codec));
  }

  /** In a list without repetitions every element occurs exactly once. */
  lemma {:induction false} DistinctOccursOnce(xs: seq<string>, x: string)
    requires Distinct(xs)
    ensures multiset(xs)[x] == if x in xs then 1 else 0
  {
    if |xs| > 0 {
      assert xs == [xs[0]] + xs[1..];
      DistinctOccursOnce(xs[1..], x);
      if xs[0] == x {
        assert x !in xs[1..];
      }
    }
  }

  /** Every href that survives filtering yields exactly one candidate; nothing else does. */
  lemma SurvivorsOccurOnce(hrefs: seq<string>, codec: Codec, x: string)
    requires Candidates(hrefs, codec).Targets?
    ensures multiset(Candidates(hrefs, codec).urls)[x] ==
              if exists i :: 0 <= i < |hrefs| && Resolve(hrefs[i], codec) == Emit(x) then 1 else 0
  {
    DistinctOccursOnce(Candidates(hrefs, codec).urls, x);
  }

  /** One more verdict appends its URL to the deduplicated prefix exactly when it is new. */
  lemma DedupStep(vs: seq<Verdict>, i: nat)
    requires i < |vs|
    ensures Dedup(vs[..i + 1]) ==
              if vs[i].Emit? && vs[i].url !in Dedup(vs[..i]) then Dedup(vs[..i]) + [vs[i].url]
              else Dedup(vs[..i])
  {
    assert vs[..i + 1][..i] == vs[..i];
  }

  /** The link loop as written, with its `seen` set and `unique_targets` list, over the
      verdicts of the hrefs. */
  method CollectTargets(vs: seq<Verdict>) returns (o: Outcome)
    ensures o == Collect(vs)
  {
    var targets: seq<string> := [];
    var seen: set<string> := {};
    var i := 0;
    while i < |vs|
      invariant 0 <= i <= |vs|
      invariant forall j :: 0 <= j < i ==> vs[j] != Raises
      invariant targets == Dedup(vs[..i])
      invariant forall x :: x in seen <==> x in targets
    {
      if vs[i] == Raises {
        return Aborted;
      }
      DedupStep(vs, i);
      assert forall j :: 0 <= j < i + 1 ==> vs[j] != Raises;
      if vs[i].Emit? && vs[i].url !in seen {
        seen := seen + {vs[i].url};
        targets := targets + [vs[i].url];
      }
      i := i + 1;
    }
    assert vs[..i] == vs;
    return Targets(targets);
  }
}
