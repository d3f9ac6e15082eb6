module ItemIdExamples {
  import opened Wrappers
  import opened ItemIds

  /** A key link yields "496". */
  lemma KeyLink()
    ensures ExtractItemId("?filterItem=496&p=1") == Some("496")
  {
    var s := "?filterItem=496&p=1";
    assert s[0..12] == Prefix;
    assert s[12..][..3] == "496";
    DigitRunStops(s[12..], "496");
  }

  /** An empty digit run is a match. */
  lemma EmptyId()
    ensures ExtractItemId("?filterItem=&") == Some("")
  {
    var s := "?filterItem=&";
    assert s[0..12] == Prefix;
  }

  /** In `?filterItem=7?filterItem=8&` no attempt before position 13 matches. */
  lemma NoEarlyMatch()
    ensures forall q :: 0 <= q < 13 ==> MatchAt("?filterItem=7?filterItem=8&", q).None?
  {
    var s := "?filterItem=7?filterItem=8&";
    assert forall q :: 1 <= q < 13 ==> s[q] != '?';
    assert s[0..12] == Prefix;
    assert s[12..][..1] == "7";
    DigitRunStops(s[12..], "7");
    forall q | 1 <= q < 13 ensures MatchAt(s, q).None? {
      assert s[q..q + 12][0] != Prefix[0];
    }
  }

  /** The first occurrence of the prefix fails, the second one matches. */
  lemma SecondOccurrence()
    ensures ExtractItemId("?filterItem=7?filterItem=8&") == Some("8")
  {
    var s := "?filterItem=7?filterItem=8&";
    assert s[13..25] == Prefix && s[25..26] == "8" && s[26] == '&';
    MatchAtCorrect(s, 13, "8");
    NoEarlyMatch();
    SearchFromComplete(s, 0, 13);
  }

  /** Digits not followed by an ampersand: `match` is null. */
  lemma NoAmpersand()
    ensures ExtractItemId("?filterItem=12").None?
  {
    var s := "?filterItem=12";
    forall p, d | 0 <= p <= |s| ensures !MatchesAt(s, p, d) {}
    ExtractFailsIffNoMatch(s);
  }
}
