/**
  The parts of `urllib.parse` the spider calls: `urlparse` (as far as the netloc, path
  and query it reads), `parse_qs` with its default options, and the scheme tests of
  `parse_duckduckgo_results`. Percent-encoding and percent-decoding are library
  routines whose internals are not modelled: they enter as the functions of a Codec.
*/
module Urls {
  import opened Wrappers
  import opened Text

  /** `quote_plus` and `unquote`, taken as given total functions. */
  datatype Codec = Codec(quotePlus: string -> string, unquote: string -> string)

  /** `s.startswith('http://') or s.startswith('https://')` */
  predicate IsHttp(s: string)
  {
    StartsWith(s, "http://") || StartsWith(s, "https://")
  }

  /** An HTTP(S) link is not protocol-relative: it starts with `h`. */
  lemma HttpStartsWithH(h: string)
    requires IsHttp(h)
    ensures h[0] == 'h' && !StartsWith(h, "//")
  {
    if StartsWith(h, "http://") {
      assert h[..7][0] == 'h';
    } else {
      assert h[..8][0] == 'h';
    }
    assert h[..2][0] == h[0];
  }

  /** A protocol-relative link (`//host/...`) gets the `https:` scheme; anything else is kept. */
  function CompleteScheme(s: string): (r: string)
    ensures StartsWith(s, "//") ==> r == "https:" + s && IsHttp(r)
    ensures !StartsWith(s, "//") ==> r == s
  {
    if StartsWith(s, "//") then
      assert ("https:" + s)[..8] == "https://";
      "https:" + s
    else s
  }

  /** Index of the first character of `s` that is in `cs`, or `|s|` when there is none. */
  function FirstIndexOf(s: string, cs: set<char>): (k: nat)
    ensures k <= |s|
    ensures forall i :: 0 <= i < k ==> s[i] !in cs
    ensures k < |s| ==> s[k] in cs
  {
    if |s| == 0 then 0
    else if s[0] in cs then 0
    else 1 + FirstIndexOf(s[1..], cs)
  }

  /** Tab, carriage return and line feed, which `urlsplit` deletes wherever they occur. */
  const UnsafeChars: set<char> := {'\t', '\r', '\n'}

  /** `s` with every tab, CR and LF deleted; a string without them is unchanged. */
  function RemoveUnsafe(s: string): (r: string)
    ensures forall i :: 0 <= i < |r| ==> r[i] !in UnsafeChars
    ensures (forall i :: 0 <= i < |s| ==> s[i] !in UnsafeChars) ==> r == s
    ensures |s| >= 2 && s[0] !in UnsafeChars && s[1] !in UnsafeChars
            ==> |r| >= 2 && r[0] == s[0] && r[1] == s[1]
  {
    if |s| == 0 then []
    else (if s[0] in UnsafeChars then [] else [s[0]]) + RemoveUnsafe(s[1..])
  }

  /** The deletion works character by character, so it keeps the order of what remains. */
  lemma {:induction false} RemoveUnsafeConcat(a: string, b: string)
    ensures RemoveUnsafe(a + b) == RemoveUnsafe(a) + RemoveUnsafe(b)
  {
    if |a| > 0 {
      assert (a + b)[1..] == a[1..] + b;
      RemoveUnsafeConcat(a[1..], b);
    } else {
      assert a + b == b;
    }
  }

  /** Every character other than tab, CR and LF keeps its number of occurrences. */
  lemma {:induction false} RemoveUnsafeCounts(s: string, c: char)
    requires c !in UnsafeChars
    ensures multiset(RemoveUnsafe(s))[c] == multiset(s)[c]
  {
    if |s| > 0 {
      assert s == [s[0]] + s[1..];
      RemoveUnsafeCounts(s[1..], c);
    }
  }

  /** The characters at which the network location of a URL ends. */
  const NetlocDelimiters: set<char> := {'/', '?', '#'}

  /** The result of `urlsplit` on an absolute `scheme://...` URL, without the scheme.
      `query` and `fragment` are None when the URL has no `?` or `#` part. */
  datatype UrlParts = UrlParts(netloc: string, path: string, query: Option<string>, fragment: Option<string>)
  {
    /** `urlsplit` reports an absent query as the empty string. */
    function QueryText(): string
    {
      query.GetOr("")
    }
  }

  /** `[c] + t` for a present part, nothing for an absent one. */
  function Attach(c: char, t: Option<string>): string
  {
    match t
    case Some(x) => [c] + x
    case None => ""
  }

  /** `s.split(c, 1)` when `c in s`; `(s, None)` otherwise. */
  function SplitAt(s: string, c: char): (r: (string, Option<string>))
    ensures c !in r.0
    ensures r.0 + Attach(c, r.1) == s
  {
    var k := FirstIndexOf(s, {c});
    if k < |s| then
      assert s == s[..k] + [c] + s[k + 1..];
      (s[..k], Some(s[k + 1..]))
    else
      assert s[..k] == s;
      (s, None)
  }

  /** SplitAt reads back what Attach put together. */
  lemma SplitAtAttach(a: string, t: Option<string>, c: char)
    requires c !in a
    ensures SplitAt(a + Attach(c, t), c) == (a, t)
  {
    var s := a + Attach(c, t);
    if t.Some? {
      assert s[|a|] == c;
      assert s[..|a|] == a;
      assert s[|a| + 1..] == t.value;
    } else {
      assert s == a;
    }
  }

  /** The inverse of SplitAuthority: `//netloc path ?query #fragment`. */
  function Recompose(u: UrlParts): string
  {
    "//" + (u.netloc + ((u.path + Attach('?', u.query)) + Attach('#', u.fragment)))
  }

  /** The decompositions SplitAuthority can produce: each part stops at its delimiter. */
  predicate WellSplit(u: UrlParts)
  {
    && '/' !in u.netloc && '?' !in u.netloc && '#' !in u.netloc
    && (u.path == [] || u.path[0] == '/')
    && '?' !in u.path && '#' !in u.path
    && (u.query.Some? ==> '#' !in u.query.value)
  }

  /** The network location: everything up to the first `/`, `?` or `#`, and the rest. */
  function SplitNetloc(s: string): (r: (string, string))
    ensures '/' !in r.0 && '?' !in r.0 && '#' !in r.0
    ensures r.0 + r.1 == s
    ensures r.1 == [] || r.1[0] in NetlocDelimiters
  {
    var k := FirstIndexOf(s, NetlocDelimiters);
    assert s[..k] + s[k..] == s;
    (s[..k], s[k..])
  }

  /** `urlsplit` on the text after `scheme:`: the netloc runs up to the first `/`, `?` or `#`;
      the fragment is cut off at the first `#` after it, then the query at the first `?`. */
  function SplitAuthority(c: string): UrlParts
    requires StartsWith(c, "//")
  {
    var n := SplitNetloc(c[2..]);
    var f := SplitAt(n.1, '#');
    var q := SplitAt(f.0, '?');
    UrlParts(n.0, q.0, q.1, f.1)
  }

  /** SplitAuthority cuts its input into parts that stop at their delimiters and that
      put back together give the input. */
  lemma SplitAuthorityRecompose(c: string)
    requires StartsWith(c, "//")
    ensures WellSplit(SplitAuthority(c))
    ensures Recompose(SplitAuthority(c)) == c
  {
    var n := SplitNetloc(c[2..]);
    var f := SplitAt(n.1, '#');
    var q := SplitAt(f.0, '?');
    assert c == "//" + c[2..];
    assert '#' !in q.0 && (q.1.Some? ==> '#' !in q.1.value) by {
      assert f.0 == q.0 + Attach('?', q.1);
    }
    assert q.0 != [] ==> q.0[0] == f.0[0] == n.1[0];
  }

  /** Any well-split URL is what SplitAuthority reads back from its recomposition. */
  lemma SplitRecompose(u: UrlParts)
    requires WellSplit(u)
    ensures StartsWith(Recompose(u), "//")
    ensures SplitAuthority(Recompose(u)) == u
  {
    var c := Recompose(u);
    var tail := u.path + Attach('?', u.query) + Attach('#', u.fragment);
    assert c == "//" + (u.netloc + tail);
    assert c[..2] == "//";
    assert c[2..] == u.netloc + tail;
    assert tail == [] || tail[0] in NetlocDelimiters;
    FirstIndexOfSplit(u.netloc, tail, NetlocDelimiters);
    assert c[2..][..|u.netloc|] == u.netloc;
    assert c[2..][|u.netloc|..] == tail;
    assert '#' !in u.path + Attach('?', u.query);
    SplitAtAttach(u.path + Attach('?', u.query), u.fragment, '#');
    SplitAtAttach(u.path, u.query, '?');
  }

  /** The first delimiter of `a + b` is at `|a|` when `a` has none and `b` starts with one. */
  lemma FirstIndexOfSplit(a: string, b: string, cs: set<char>)
    requires forall i :: 0 <= i < |a| ==> a[i] !in cs
    requires b == [] || b[0] in cs
    ensures FirstIndexOf(a + b, cs) == |a|
  {
    if b != [] {
      assert (a + b)[|a|] == b[0];
    }
  }

  /** `urlsplit` raises ValueError when a netloc has one square bracket without the other. */
  predicate ValidNetloc(netloc: string)
  {
    !(('[' in netloc && ']' !in netloc) || (']' in netloc && '[' !in netloc))
  }

  /** `urlparse(h)` for an `http://` or `https://` link, without the scheme. */
  function SplitUrl(h: string): (u: UrlParts)
    requires IsHttp(h)
  {
    var afterScheme := if StartsWith(h, "http://") then h[5..] else h[6..];
    var c := RemoveUnsafe(afterScheme);
    assert c[..2] == "//";
    SplitAuthority(c)
  }

  /** `s.replace('+', ' ')` */
  function PlusToSpace(s: string): (r: string)
    ensures |r| == |s|
    ensures forall i :: 0 <= i < |s| ==> r[i] == (if s[i] == '+' then ' ' else s[i])
  {
    if |s| == 0 then [] else [if s[0] == '+' then ' ' else s[0]] + PlusToSpace(s[1..])
  }

  /** One field of `parse_qsl` with `keep_blank_values=False`: a field without `=` or with
      an empty value is skipped (None); otherwise name and value are `+`-to-space
      converted and percent-decoded. */
  function ParseField(field: string, codec: Codec): Option<(string, string)>
  {
    var k := FirstIndexOf(field, {'='});
    if k + 1 >= |field| then None
    else Some((codec.unquote(PlusToSpace(field[..k])), codec.unquote(PlusToSpace(field[k + 1..]))))
  }

  /** A field is kept exactly when some `=` in it is followed by at least one character. */
  lemma ParseFieldKept(field: string, codec: Codec)
    ensures ParseField(field, codec).Some? <==> exists k :: 0 <= k < |field| - 1 && field[k] == '='
  {
    var k := FirstIndexOf(field, {'='});
    if exists j :: 0 <= j < |field| - 1 && field[j] == '=' {
      var j :| 0 <= j < |field| - 1 && field[j] == '=';
      assert k <= j;
    }
  }

  /** Field `field` is kept by `parse_qsl` and its decoded name is `name`. */
  predicate Names(field: string, name: string, codec: Codec)
  {
    ParseField(field, codec).Some? && ParseField(field, codec).value.0 == name
  }

  /** `parse_qs(...).get(name, [None])[0]` over the `&`-separated fields: the decoded value
      of the first kept field called `name`. */
  function FirstValue(fields: seq<string>, name: string, codec: Codec): Option<string>
  {
    if |fields| == 0 then None
    else if Names(fields[0], name, codec) then Some(ParseField(fields[0], codec).value.1)
    else FirstValue(fields[1..], name, codec)
  }

  /** FirstValue finds a value exactly when some field is called `name`, and then it is the
      value of the first such field. */
  lemma {:induction false} FirstValueFirst(fields: seq<string>, name: string, codec: Codec)
    ensures FirstValue(fields, name, codec).Some? <==> exists i :: 0 <= i < |fields| && Names(fields[i], name, codec)
    ensures forall i :: 0 <= i < |fields| && Names(fields[i], name, codec)
                        && (forall j :: 0 <= j < i ==> !Names(fields[j], name, codec))
                        ==> FirstValue(fields, name, codec) == Some(ParseField(fields[i], codec).value.1)
  {
    if |fields| > 0 {
      FirstValueFirst(fields[1..], name, codec);
      assert forall i :: 1 <= i < |fields| ==> fields[i] == fields[1..][i - 1];
    }
  }

  /** `parse_qs(query).get(name, [None])[0]` */
  function QueryValue(query: string, name: string, codec: Codec): Option<string>
  {
    FirstValue(Split(query, "&"), name, codec)
  }
}
