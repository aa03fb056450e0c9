/** String operations of Python's `str` that the spider relies on, over `seq<char>`. */
module Text {

  /** `s.startswith(p)` */
  predicate StartsWith(s: string, p: string)
  {
    |p| <= |s| && s[..|p|] == p
  }

  /** `s.endswith(p)` */
  predicate EndsWith(s: string, p: string)
  {
    |p| <= |s| && s[|s| - |p|..] == p
  }

  /** `p in s`: some suffix of `s` starts with `p`. */
  predicate Contains(s: string, p: string)
    decreases |s|
  {
    StartsWith(s, p) || (|s| > 0 && Contains(s[1..], p))
  }

  /** The recursive definition of Contains agrees with "an occurrence starts at some position". */
  lemma {:induction false} ContainsAt(s: string, p: string)
    ensures Contains(s, p) <==> exists i :: 0 <= i <= |s| && StartsWith(s[i..], p)
    decreases |s|
  {
    assert s[0..] == s;
    if |s| > 0 {
      ContainsAt(s[1..], p);
      forall i | 1 <= i <= |s|
        ensures s[1..][i - 1..] == s[i..]
      {
      }
    }
  }

  /** A suffix is an occurrence. */
  lemma EndsWithContains(s: string, p: string)
    requires EndsWith(s, p)
    ensures Contains(s, p)
  {
    ContainsAt(s, p);
    assert StartsWith(s[|s| - |p|..], p);
  }

  /** Python's `str.lower()` restricted to ASCII letters. */
  function LowerChar(c: char): (d: char)
    ensures 'A' <= c <= 'Z' ==> 'a' <= d <= 'z'
    ensures !('A' <= c <= 'Z') ==> d == c
  {
    if 'A' <= c <= 'Z' then (c as int - 'A' as int + 'a' as int) as char else c
  }

  /** `s.lower()`, character by character (ASCII case mapping). */
  function Lower(s: string): (r: string)
    ensures |r| == |s|
    ensures forall i :: 0 <= i < |s| ==> r[i] == LowerChar(s[i])
  {
    if |s| == 0 then [] else [LowerChar(s[0])] + Lower(s[1..])
  }

  /** `sep.join(parts)` */
  function Join(parts: seq<string>, sep: string): string
  {
    if |parts| == 0 then ""
    else if |parts| == 1 then parts[0]
    else parts[0] + sep + Join(parts[1..], sep)
  }

  /** The scanning loop of `s.split(sep)`: `piece` is the text gathered since the last separator. */
  function SplitFrom(s: string, sep: string, piece: string): (r: seq<string>)
    requires |sep| > 0
    ensures |r| >= 1
    decreases |s|
  {
    if |s| == 0 then [piece]
    else if StartsWith(s, sep) then [piece] + SplitFrom(s[|sep|..], sep, "")
    else SplitFrom(s[1..], sep, piece + [s[0]])
  }

  /** `s.split(sep)`: occurrences are found left to right and do not overlap. */
  function Split(s: string, sep: string): seq<string>
    requires |sep| > 0
  {
    SplitFrom(s, sep, "")
  }

  function Last<T>(xs: seq<T>): T
    requires |xs| > 0
  {
    xs[|xs| - 1]
  }

  /** Joining the pieces of a split with the separator gives back the string. */
  lemma {:induction false} JoinSplitFrom(s: string, sep: string, piece: string)
    requires |sep| > 0
    ensures Join(SplitFrom(s, sep, piece), sep) == piece + s
    decreases |s|
  {
    if |s| == 0 {
    } else if StartsWith(s, sep) {
      JoinSplitFrom(s[|sep|..], sep, "");
      assert s == sep + s[|sep|..];
    } else {
      JoinSplitFrom(s[1..], sep, piece + [s[0]]);
      assert piece + [s[0]] + s[1..] == piece + s;
    }
  }

  lemma JoinSplit(s: string, sep: string)
    requires |sep| > 0
    ensures Join(Split(s, sep), sep) == s
  {
    JoinSplitFrom(s, sep, "");
  }

  /** Where no occurrence of `sep` starts anywhere in `s`, the scan yields one piece. */
  lemma {:induction false} SplitFromNoSeparator(s: string, sep: string, piece: string)
    requires |sep| > 0
    requires forall i :: 0 <= i < |s| ==> !StartsWith(s[i..], sep)
    ensures SplitFrom(s, sep, piece) == [piece + s]
    decreases |s|
  {
    if |s| > 0 {
      assert s[0..] == s;
      forall i | 0 <= i < |s[1..]|
        ensures !StartsWith(s[1..][i..], sep)
      {
        assert s[1..][i..] == s[i + 1..];
      }
      assert !StartsWith(s, sep);
      assert SplitFrom(s, sep, piece) == SplitFrom(s[1..], sep, piece + [s[0]]);
      SplitFromNoSeparator(s[1..], sep, piece + [s[0]]);
      assert piece + [s[0]] + s[1..] == piece + s;
    } else {
      assert piece + s == piece;
    }
  }

  /** Characters of `x` at which no separator starts are gathered into the current piece. */
  lemma {:induction false} SplitFromSkip(x: string, rest: string, sep: string, piece: string)
    requires |sep| > 0
    requires forall i :: 0 <= i < |x| ==> !StartsWith((x + rest)[i..], sep)
    ensures SplitFrom(x + rest, sep, piece) == SplitFrom(rest, sep, piece + x)
    decreases |x|
  {
    if |x| > 0 {
      var s := x + rest;
      assert s[0..] == s;
      assert s[1..] == x[1..] + rest;
      forall i | 0 <= i < |x[1..]|
        ensures !StartsWith((x[1..] + rest)[i..], sep)
      {
        assert (x[1..] + rest)[i..] == s[i + 1..];
      }
      SplitFromSkip(x[1..], rest, sep, piece + [x[0]]);
      assert piece + [x[0]] + x[1..] == piece + x;
    } else {
      assert x + rest == rest;
      assert piece + x == piece;
    }
  }
}
