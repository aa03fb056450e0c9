/**
  `verify_shoper`: the three-stage heuristic that classifies a fetched candidate page
  as a Shoper storefront, and the record yielded for a positive match.
*/
module Shoper {
  import opened Wrappers
  import opened Text

  /** What `verify_shoper` extracts from a response: its URL, the `<title>` text, the
      generator meta content, the text nodes under `<footer>`, and the script `src` values. */
  datatype CandidatePage = CandidatePage(
    url: string,
    title: Option<string>,
    generator: Option<string>,
    footerText: seq<string>,
    scriptSources: seq<string>)

  /** The item yielded for a detected store. */
  datatype ShopRecord = ShopRecord(url: string, title: Option<string>, generator: Option<string>, detected: bool)

  /** Stage 1: the generator is present, non-empty and mentions `shoper`. */
  predicate GeneratorMatch(generator: Option<string>)
  {
    generator.Some? && generator.value != "" && Contains(Lower(generator.value), "shoper")
  }

  /** Stage 2: the footer text nodes joined with spaces mention the platform. */
  predicate FooterMatch(footerText: seq<string>)
  {
    var content := Lower(Join(footerText, " "));
    Contains(content, "shoper.pl") || Contains(content, "oprogramowanie shoper")
  }

  predicate ScriptMatch(src: string)
  {
    Contains(Lower(src), "shoper")
  }

  /** Stage 3: the loop over script sources, which breaks at the first
      match; the index of that script, if any. */
  function FirstShoperScript(scripts: seq<string>): (k: Option<nat>)
    ensures k.Some? <==> exists i :: 0 <= i < |scripts| && ScriptMatch(scripts[i])
    ensures k.Some? ==> k.value < |scripts| && ScriptMatch(scripts[k.value])
                        && forall j :: 0 <= j < k.value ==> !ScriptMatch(scripts[j])
  {
    if |scripts| == 0 then None
    else if ScriptMatch(scripts[0]) then Some(0)
    else
      match FirstShoperScript(scripts[1..])
      case Some(k) =>
        assert scripts[1..][k] == scripts[k + 1];
        assert forall j :: 1 <= j < k + 1 ==> scripts[j] == scripts[1..][j - 1];
        Some(k + 1)
      case None =>
        assert forall i :: 1 <= i < |scripts| ==> scripts[i] == scripts[1..][i - 1];
        None
  }

  /** Which check set `is_shoper`; later checks run only while it is still false. */
  datatype Stage = ByGenerator | ByFooter | ByScript(index: nat)

  /** The first stage that fires, in the order generator, footer, scripts. */
  function DetectingStage(page: CandidatePage): Option<Stage>
  {
    if GeneratorMatch(page.generator) then Some(ByGenerator)
    else if FooterMatch(page.footerText) then Some(ByFooter)
    else
      match FirstShoperScript(page.scriptSources)
      case Some(k) => Some(ByScript(k))
      case None => None
  }

  /** The final `is_shoper` flag is the disjunction of the three signals. */
  lemma DetectionIsDisjunction(page: CandidatePage)
    ensures DetectingStage(page).Some? <==>
              GeneratorMatch(page.generator) || FooterMatch(page.footerText)
              || exists i :: 0 <= i < |page.scriptSources| && ScriptMatch(page.scriptSources[i])
  {
  }

  /** A generator match decides the page whatever its footer and scripts hold. */
  lemma GeneratorMatchSuffices(page: CandidatePage, footerText: seq<string>, scriptSources: seq<string>)
    requires GeneratorMatch(page.generator)
    ensures DetectingStage(page.(footerText := footerText, scriptSources := scriptSources)) == Some(ByGenerator)
  {
  }

  /** `verify_shoper`: a record exactly when the page is detected, carrying the response URL,
      the title, the raw generator content (whichever stage fired) and `detected = true`. */
  function VerifyShoper(page: CandidatePage): (r: Option<ShopRecord>)
    ensures r.Some? <==> GeneratorMatch(page.generator) || FooterMatch(page.footerText)
                         || exists i :: 0 <= i < |page.scriptSources| && ScriptMatch(page.scriptSources[i])
    ensures r.Some? ==> r.value.detected && r.value.url == page.url
                        && r.value.title == page.title && r.value.generator == page.generator
  {
    if DetectingStage(page).Some? then Some(ShopRecord(page.url, page.title, page.generator, true))
    else None
  }

  /** The imperative flag-and-break form of the three stages, as written. */
  method IsShoper(page: CandidatePage) returns (isShoper: bool)
    ensures isShoper <==> DetectingStage(page).Some?
  {
    isShoper := false;
    if GeneratorMatch(page.generator) {
      isShoper := true;
    }
    if !isShoper {
      if FooterMatch(page.footerText) {
        isShoper := true;
      }
    }
    if !isShoper {
      var scripts := page.scriptSources;
      var i := 0;
      while i < |scripts|
        invariant 0 <= i <= |scripts|
        invariant !isShoper
        invariant forall j :: 0 <= j < i ==> !ScriptMatch(scripts[j])
      {
        if ScriptMatch(scripts[i]) {
          isShoper := true;
          break;
        }
        i := i + 1;
      }
    }
  }
}
