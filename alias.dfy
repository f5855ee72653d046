/** `getAlias`: the blog alias of a twoday.net address, read with the regular
    expression /http:\/\/(.*).twoday.net/. The expression is unanchored, its
    dots are unescaped (each matches any character but a line terminator) and
    `(.*)` is greedy, so the capture is the text after the leftmost "http://"
    that is followed on its line by a ".twoday.net"-shaped text, up to the
    LAST such text on that line. */
module Alias {
  import opened Wrappers
  import opened JsStrings

  const Scheme: string := "http://"

  /** Position `j` starts text matched by `.twoday.net`: a character that is
      not a line terminator, "twoday", another such character, "net". */
  predicate TwodayAt(s: string, j: int) {
    && 0 <= j && j + 11 <= |s|
    && !IsLineTerminator(s[j]) && s[j + 1..j + 7] == "twoday"
    && !IsLineTerminator(s[j + 7]) && s[j + 8..j + 11] == "net"
  }

  ghost predicate NoLineTerminator(s: string, lo: int, hi: int)
    requires 0 <= lo && hi <= |s|
  {
    forall k :: lo <= k < hi ==> !IsLineTerminator(s[k])
  }

  /** The regular expression matches `s` from position `a`, with the group
      capturing `s[a + 7..b]`. */
  ghost predicate MatchAt(s: string, a: int, b: int) {
    && 0 <= a && a + |Scheme| <= b && b + 11 <= |s|
    && s[a..a + |Scheme|] == Scheme
    && NoLineTerminator(s, a + |Scheme|, b)
    && TwodayAt(s, b)
  }

  /** The match JavaScript reports: the leftmost start, and for it the
      longest capture (the greedy `(.*)` backtracks from the end of the line). */
  ghost predicate RegexMatch(s: string, a: int, b: int) {
    && MatchAt(s, a, b)
    && (forall a', b' {:trigger MatchAt(s, a', b')} :: MatchAt(s, a', b') ==> a <= a')
    && (forall b' {:trigger MatchAt(s, a, b')} :: MatchAt(s, a, b') ==> b' <= b)
  }

  /** The first line terminator at or after `lo`, or the end of `s`. */
  function LineEnd(s: string, lo: nat): (e: nat)
    requires lo <= |s|
    ensures lo <= e <= |s|
    decreases |s| - lo
  {
    if lo == |s| || IsLineTerminator(s[lo]) then lo else LineEnd(s, lo + 1)
  }

  lemma {:induction false} LineEndMeaning(s: string, lo: nat)
    requires lo <= |s|
    ensures NoLineTerminator(s, lo, LineEnd(s, lo))
    ensures LineEnd(s, lo) < |s| ==> IsLineTerminator(s[LineEnd(s, lo)])
    decreases |s| - lo
  {
    if !(lo == |s| || IsLineTerminator(s[lo])) {
      LineEndMeaning(s, lo + 1);
    }
  }

  /** The largest `j` in `[lo, hi)` where `.twoday.net` matches, or -1. */
  function LastTwoday(s: string, lo: int, hi: int): (j: int)
    ensures j == -1 || (lo <= j < hi && TwodayAt(s, j))
    decreases hi - lo
  {
    if hi <= lo then -1 else if TwodayAt(s, hi - 1) then hi - 1 else LastTwoday(s, lo, hi - 1)
  }

  lemma {:induction false} LastTwodayMeaning(s: string, lo: int, hi: int)
    ensures var j := LastTwoday(s, lo, hi);
      forall k :: lo <= k < hi && (j == -1 || j < k) ==> !TwodayAt(s, k)
    decreases hi - lo
  {
    if hi > lo && !TwodayAt(s, hi - 1) {
      LastTwodayMeaning(s, lo, hi - 1);
    }
  }

  /** The match positions of the regular expression among starts at or after `i`. */
  function FirstMatch(s: string, i: nat): (r: Option<(int, int)>)
    ensures r.Some? ==> i <= r.value.0 && r.value.0 + |Scheme| <= r.value.1 <= |s|
    decreases |s| - i
  {
    if i + |Scheme| > |s| then None
    else
      var e := LineEnd(s, i + |Scheme|);
      var j := LastTwoday(s, i + |Scheme|, e);
      if s[i..i + |Scheme|] == Scheme && j >= 0 then Some((i, j))
      else FirstMatch(s, i + 1)
  }

  /** Every match from `i` ends its capture at or before the last
      `.twoday.net` on the line, which therefore exists. */
  lemma MatchFrom(s: string, i: nat, b: int)
    requires i + |Scheme| <= |s| && MatchAt(s, i, b)
    ensures var j := LastTwoday(s, i + |Scheme|, LineEnd(s, i + |Scheme|));
      j >= 0 && b <= j
  {
    var e := LineEnd(s, i + |Scheme|);
    LineEndMeaning(s, i + |Scheme|);
    LastTwodayMeaning(s, i + |Scheme|, e);
  }

  /** No match starts at `i` when `i` is not followed by "http://" and a `.twoday.net` on its line. */
  lemma NoMatchFrom(s: string, i: nat)
    requires i + |Scheme| <= |s|
    requires s[i..i + |Scheme|] != Scheme || LastTwoday(s, i + |Scheme|, LineEnd(s, i + |Scheme|)) < 0
    ensures forall b :: !MatchAt(s, i, b)
  {
    forall b | MatchAt(s, i, b) ensures false {
      MatchFrom(s, i, b);
    }
  }

  /** What `FirstMatch(s, i)` promises: either no match starts at or after
      `i`, or `r` holds the leftmost start at or after `i` and the end of the
      longest capture from there. */
  ghost predicate LeftmostLongest(s: string, i: nat, r: Option<(int, int)>) {
    && (r.None? ==> forall a, b {:trigger MatchAt(s, a, b)} :: i <= a ==> !MatchAt(s, a, b))
    && (r.Some? ==>
      && i <= r.value.0 && MatchAt(s, r.value.0, r.value.1)
      && (forall a, b {:trigger MatchAt(s, a, b)} :: i <= a < r.value.0 ==> !MatchAt(s, a, b))
      && (forall b {:trigger MatchAt(s, r.value.0, b)} :: MatchAt(s, r.value.0, b) ==> b <= r.value.1))
  }

  /** `FirstMatch` finds the leftmost start of a match and, for it, the last
      position where `.twoday.net` can follow on the same line. */
  lemma {:induction false} FirstMatchMeaning(s: string, i: nat)
    ensures LeftmostLongest(s, i, FirstMatch(s, i))
    decreases |s| - i
  {
    if i + |Scheme| <= |s| {
      var j := LastTwoday(s, i + |Scheme|, LineEnd(s, i + |Scheme|));
      if s[i..i + |Scheme|] == Scheme && j >= 0 {
        assert FirstMatch(s, i) == Some((i, j));
        MatchHere(s, i);
      } else {
        assert FirstMatch(s, i) == FirstMatch(s, i + 1);
        NoMatchFrom(s, i);
        FirstMatchMeaning(s, i + 1);
        SkipStart(s, i, FirstMatch(s, i + 1));
      }
    }
  }

  /** A start where no match begins can be skipped. */
  lemma SkipStart(s: string, i: nat, r: Option<(int, int)>)
    requires forall b :: !MatchAt(s, i, b)
    requires LeftmostLongest(s, i + 1, r)
    ensures LeftmostLongest(s, i, r)
  {
    var stop := if r.None? then |s| else r.value.0;
    forall a, b | i <= a < stop ensures !MatchAt(s, a, b) {
      if a > i {
        assert i + 1 <= a;
      }
    }
  }

  /** Where "http://" is followed by a `.twoday.net` on its line, the last
      such `.twoday.net` ends the longest match from there. */
  lemma MatchHere(s: string, i: nat)
    requires i + |Scheme| <= |s| && s[i..i + |Scheme|] == Scheme
    requires LastTwoday(s, i + |Scheme|, LineEnd(s, i + |Scheme|)) >= 0
    ensures var j := LastTwoday(s, i + |Scheme|, LineEnd(s, i + |Scheme|));
      && MatchAt(s, i, j)
      && forall b {:trigger MatchAt(s, i, b)} :: MatchAt(s, i, b) ==> b <= j
  {
    var e := LineEnd(s, i + |Scheme|);
    var j := LastTwoday(s, i + |Scheme|, e);
    LineEndMeaning(s, i + |Scheme|);
    assert MatchAt(s, i, j);
    forall b | MatchAt(s, i, b) ensures b <= j {
      MatchFrom(s, i, b);
    }
  }

  /** `getAlias(uri)`: the captured group, or `None` where the source reads
      `null[1]` and throws a TypeError. */
  function GetAlias(uri: string): Option<string> {
    match FirstMatch(uri, 0)
    case None => None
    case Some((a, b)) => Some(uri[a + |Scheme|..b])
  }

  /** `getAlias` fails exactly when the regular expression does not match,
      and otherwise returns the group of the leftmost, longest match. */
  lemma GetAliasMeaning(uri: string)
    ensures GetAlias(uri).None? <==> forall a, b {:trigger MatchAt(uri, a, b)} :: !MatchAt(uri, a, b)
    ensures GetAlias(uri).Some? ==> exists a, b :: RegexMatch(uri, a, b) && GetAlias(uri).value == uri[a + |Scheme|..b]
  {
    FirstMatchMeaning(uri, 0);
    match FirstMatch(uri, 0)
    case None =>
    case Some((a, b)) =>
      assert RegexMatch(uri, a, b);
  }

  /** The alias of a blog address is the host's first label, provided no
      further ".twoday.net"-shaped text follows on its line. */
  lemma GetAliasOfBlogUri(alias: string, rest: string)
    requires forall k :: 0 <= k < |alias| ==> !IsLineTerminator(alias[k])
    requires var s := Scheme + alias + ".twoday.net" + rest;
      forall j :: |Scheme| + |alias| < j < LineEnd(s, |Scheme|) ==> !TwodayAt(s, j)
    ensures GetAlias(Scheme + alias + ".twoday.net" + rest) == Some(alias)
  {
    var s := Scheme + alias + ".twoday.net" + rest;
    var b := |Scheme| + |alias|;
    assert s[..|Scheme|] == Scheme;
    assert s[|Scheme|..b] == alias;
    assert s[b..b + 11] == ".twoday.net";
    assert s[b + 1..b + 7] == s[b..b + 11][1..7] == "twoday";
    assert s[b + 8..b + 11] == s[b..b + 11][8..11] == "net";
    assert MatchAt(s, 0, b);
    LineEndMeaning(s, |Scheme|);
    forall b' | MatchAt(s, 0, b') ensures b' <= b {
      assert b' < LineEnd(s, |Scheme|);
    }
    GetAliasMeaning(s);
    var r := GetAlias(s);
    var a0, b0 :| RegexMatch(s, a0, b0) && r.value == s[a0 + |Scheme|..b0];
    assert a0 == 0 && b0 == b;
  }
}
