/**
 * The item id carried by a listing link: the capture of the pattern
 * `\?filterItem=(\d*)&` applied (without the global flag) to the link's href.
 */
module ItemIds {
  import opened Wrappers

  /** The literal text the pattern starts with. */
  const Prefix: string := "?filterItem="

  /** `\d` without the unicode flag: an ASCII decimal digit. */
  predicate IsDigit(c: char) {
    '0' <= c <= '9'
  }

  predicate AllDigits(s: string) {
    forall i :: 0 <= i < |s| ==> IsDigit(s[i])
  }

  /**
   * The pattern matches at position `p` of `s` with capture `d`: the prefix,
   * then the digits `d`, then an ampersand.
   */
  ghost predicate MatchesAt(s: string, p: nat, d: string) {
    && AllDigits(d)
    && p + |Prefix| + |d| < |s|
    && s[p..p + |Prefix|] == Prefix
    && s[p + |Prefix|..p + |Prefix| + |d|] == d
    && s[p + |Prefix| + |d|] == '&'
  }

  /** What the greedy `\d*` consumes: the longest run of digits that starts `s`. */
  function DigitRun(s: string): (d: string)
    ensures |d| <= |s| && d == s[..|d|]
    ensures AllDigits(d)
    ensures |d| < |s| ==> !IsDigit(s[|d|])
  {
    if |s| > 0 && IsDigit(s[0]) then [s[0]] + DigitRun(s[1..]) else []
  }

  /**
   * The capture when the pattern is tried at position `p`. Backtracking the
   * greedy `\d*` never helps: a shorter run is followed by a digit, not by `&`.
   */
  function MatchAt(s: string, p: nat): (r: Option<string>)
    requires p <= |s|
    ensures r.Some? ==> MatchesAt(s, p, r.value)
  {
    var q := p + |Prefix|;
    if q <= |s| && s[p..q] == Prefix then
      var d := DigitRun(s[q..]);
      assert s[q..q + |d|] == s[q..][..|d|];
      if q + |d| < |s| && s[q + |d|] == '&' then Some(d) else None
    else
      None
  }

  /** The leftmost match at position `p` or later. */
  function SearchFrom(s: string, p: nat): (r: Option<string>)
    requires p <= |s|
    ensures r.Some? ==> AllDigits(r.value)
    decreases |s| - p
  {
    match MatchAt(s, p)
    case Some(d) => Some(d)
    case None => if p == |s| then None else SearchFrom(s, p + 1)
  }

  /**
   * `href.match(/\?filterItem=(\d*)&/)[1]`: the capture of the leftmost match,
   * or None where `match` returns null (and the `[1]` access throws).
   */
  function ExtractItemId(href: string): (r: Option<string>)
    ensures r.Some? ==> AllDigits(r.value)
  {
    SearchFrom(href, 0)
  }

  /** A run of digits followed by a non-digit is exactly what `DigitRun` takes. */
  lemma {:induction false} DigitRunStops(t: string, d: string)
    requires AllDigits(d) && |d| < |t| && t[..|d|] == d && !IsDigit(t[|d|])
    ensures DigitRun(t) == d
  {
    if d != [] {
      assert t[0] == d[0];
      assert t[1..][..|d| - 1] == d[1..];
      DigitRunStops(t[1..], d[1..]);
      assert [t[0]] + d[1..] == d;
    }
  }

  /** `MatchAt` computes exactly the capture the pattern has at `p`. */
  lemma MatchAtCorrect(s: string, p: nat, d: string)
    requires p <= |s|
    ensures MatchAt(s, p) == Some(d) <==> MatchesAt(s, p, d)
  {
    var q := p + |Prefix|;
    if MatchesAt(s, p, d) {
      var t := s[q..];
      assert t[..|d|] == d;
      assert t[|d|] == '&';
      DigitRunStops(t, d);
    }
    if MatchAt(s, p) == Some(d) {
      var t := s[q..];
      assert DigitRun(t) == d;
      assert s[q..q + |d|] == t[..|d|];
    }
  }

  /** At most one capture is possible at a given position. */
  lemma MatchIsUnique(s: string, p: nat, d: string, d': string)
    requires p <= |s| && MatchesAt(s, p, d) && MatchesAt(s, p, d')
    ensures d == d'
  {
    MatchAtCorrect(s, p, d);
    MatchAtCorrect(s, p, d');
  }

  /** What the search from `p` finds is the capture at a position with no match before it. */
  lemma {:induction false} SearchFromSound(s: string, p: nat) returns (q: nat)
    requires p <= |s| && SearchFrom(s, p).Some?
    ensures p <= q <= |s| && MatchAt(s, q) == SearchFrom(s, p)
    ensures forall q' :: p <= q' < q ==> MatchAt(s, q').None?
    decreases |s| - p
  {
    var here := MatchAt(s, p);
    if here.Some? {
      q := p;
    } else {
      assert p < |s| && SearchFrom(s, p) == SearchFrom(s, p + 1);
      q := SearchFromSound(s, p + 1);
      assert forall q' :: p < q' < q ==> MatchAt(s, q').None?;
    }
  }

  /** The search from `p` finds the capture at the first matching position. */
  lemma {:induction false} SearchFromComplete(s: string, p: nat, q: nat)
    requires p <= q <= |s| && MatchAt(s, q).Some?
    requires forall q' :: p <= q' < q ==> MatchAt(s, q').None?
    ensures SearchFrom(s, p) == MatchAt(s, q)
    decreases q - p
  {
    if p < q {
      SearchFromComplete(s, p + 1, q);
    }
  }

  lemma {:induction false} SearchFromFails(s: string, p: nat)
    requires p <= |s|
    ensures SearchFrom(s, p).None? <==> forall q :: p <= q <= |s| ==> MatchAt(s, q).None?
    decreases |s| - p
  {
    if MatchAt(s, p).None? && p < |s| {
      SearchFromFails(s, p + 1);
    }
  }

  /**
   * The extracted id is the capture at the leftmost position where the
   * pattern matches.
   */
  lemma ExtractIsLeftmostMatch(href: string, d: string)
    ensures ExtractItemId(href) == Some(d) <==>
      exists p :: 0 <= p <= |href| && MatchesAt(href, p, d) &&
        forall q, d' :: 0 <= q < p ==> !MatchesAt(href, q, d')
  {
    if ExtractItemId(href) == Some(d) {
      var p := SearchFromSound(href, 0);
      MatchAtCorrect(href, p, d);
      forall q, d' | 0 <= q < p
        ensures !MatchesAt(href, q, d')
      {
        MatchAtCorrect(href, q, d');
      }
    } else {
      forall p | 0 <= p <= |href| && MatchesAt(href, p, d)
        ensures exists q, d' :: 0 <= q < p && MatchesAt(href, q, d')
      {
        MatchAtCorrect(href, p, d);
        if forall q' :: 0 <= q' < p ==> MatchAt(href, q').None? {
          SearchFromComplete(href, 0, p);
        }
        var q :| 0 <= q < p && MatchAt(href, q).Some?;
        MatchAtCorrect(href, q, MatchAt(href, q).value);
      }
    }
  }

  /** The extraction fails (the program throws) exactly when the pattern occurs nowhere. */
  lemma ExtractFailsIffNoMatch(href: string)
    ensures ExtractItemId(href).None? <==>
      forall p, d :: 0 <= p <= |href| ==> !MatchesAt(href, p, d)
  {
    SearchFromFails(href, 0);
    if ExtractItemId(href).None? {
      forall p, d | 0 <= p <= |href|
        ensures !MatchesAt(href, p, d)
      {
        MatchAtCorrect(href, p, d);
      }
    } else {
      var p :| 0 <= p <= |href| && MatchAt(href, p).Some?;
      MatchAtCorrect(href, p, MatchAt(href, p).value);
    }
  }
}
