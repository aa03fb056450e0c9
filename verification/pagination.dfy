/**
  Next-page selection of `parse_duckduckgo_results`: the first `href` attribute of an
  anchor whose text mentions the English or Polish "next" label, followed only when it
  is non-empty.
*/
module Pagination {
  import opened Wrappers
  import opened Text

  /** An anchor of the results page: its first text node (XPath's `text()` in a string
      context) and its `href` attribute, if it has one. */
  datatype Anchor = Anchor(text: string, href: Option<string>)

  const NextLabel := "Next"
  const NextLabelPolish := "Nast\U{0119}pne"

  /** The text test of the XPath predicate. */
  predicate IsNextLabel(text: string)
  {
    Contains(text, NextLabel) || Contains(text, NextLabelPolish)
  }

  /** The anchor is selected by the XPath and contributes an `@href` node. */
  predicate Selects(a: Anchor)
  {
    IsNextLabel(a.text) && a.href.Some?
  }

  /** `.get()` on the XPath result: the first `@href` in document order. */
  function NextHref(anchors: seq<Anchor>): (r: Option<string>)
    ensures r.Some? <==> exists i :: 0 <= i < |anchors| && Selects(anchors[i])
    ensures forall i :: 0 <= i < |anchors| && Selects(anchors[i])
                        && (forall j :: 0 <= j < i ==> !Selects(anchors[j]))
                        ==> r == anchors[i].href
  {
    if |anchors| == 0 then None
    else if Selects(anchors[0]) then anchors[0].href
    else
      var r := NextHref(anchors[1..]);
      assert forall i :: 1 <= i < |anchors| ==> anchors[i] == anchors[1..][i - 1];
      r
  }

  /** The href followed for the next results page, if any; an empty href
      is falsy and ends the chain like a missing one. */
  function NextPage(anchors: seq<Anchor>): Option<string>
  {
    match NextHref(anchors)
    case Some(h) => if h != "" then Some(h) else None
    case None => None
  }

  /** A continuation exists exactly when some labelled anchor carries an href and the first
      such href is not empty; it is that href. */
  lemma NextPageFirstLabelled(anchors: seq<Anchor>)
    ensures NextPage(anchors).Some? <==>
              exists i :: 0 <= i < |anchors| && Selects(anchors[i])
                          && (forall j :: 0 <= j < i ==> !Selects(anchors[j]))
                          && anchors[i].href.value != ""
    ensures forall i :: 0 <= i < |anchors| && Selects(anchors[i])
                        && (forall j :: 0 <= j < i ==> !Selects(anchors[j]))
                        && anchors[i].href.value != ""
                        ==> NextPage(anchors) == anchors[i].href
  {
    if NextHref(anchors).Some? {
      var i := FirstSelected(anchors);
      assert NextHref(anchors) == anchors[i].href;
    }
  }

  /** The position of the first selected anchor. */
  lemma FirstSelected(anchors: seq<Anchor>) returns (i: nat)
    requires exists k :: 0 <= k < |anchors| && Selects(anchors[k])
    ensures i < |anchors| && Selects(anchors[i])
    ensures forall j :: 0 <= j < i ==> !Selects(anchors[j])
  {
    var k :| 0 <= k < |anchors| && Selects(anchors[k]);
    i := 0;
    while !Selects(anchors[i])
      invariant i <= k
      invariant forall j :: 0 <= j < i ==> !Selects(anchors[j])
      decreases k - i
    {
      i := i + 1;
    }
  }
}
