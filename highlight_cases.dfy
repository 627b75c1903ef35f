/** The highlighter on small concrete inputs, worked out through the scanner. */
module HighlightCases {
  import opened Wrappers
  import opened Highlighter
  import opened HighlightProofs

  /** `"k":`: a colon right after the closing quote makes a key, colon included. */
  lemma KeyAdjacentColon()
    ensures MatchAt("\"k\":", 0) == Some(Match(4, QuotedAlt(2, true)))
    ensures Classify("\"k\":") == Key
  {
    var s := "\"k\":";
    assert BodyEnd(s, 1) == 2 by {
      assert ItemEnd(s, 1) == Some(2);
      assert ItemEnd(s, 2) == None;
    }
    assert SpaceEnd(s, 3) == 3;
    MatchAtQuote(s, 0);
  }

  /** `"k" :`: whitespace between the closing quote and the colon still makes
      a key, and the key's span runs through the colon. */
  lemma KeySpacedColon()
    ensures MatchAt("\"k\" :", 0) == Some(Match(5, QuotedAlt(2, true)))
    ensures Classify("\"k\" :") == Key
  {
    var s := "\"k\" :";
    assert BodyEnd(s, 1) == 2 by {
      assert ItemEnd(s, 1) == Some(2);
      assert ItemEnd(s, 2) == None;
    }
    assert SpaceEnd(s, 3) == 4 by {
      assert IsSpace(s[3]) && !IsSpace(s[4]);
      assert SpaceEnd(s, 4) == 4;
    }
    MatchAtQuote(s, 0);
  }

  /** `"k",`: without a colon the quoted text is a plain string. */
  lemma StringWithoutColon()
    ensures MatchAt("\"k\",", 0) == Some(Match(3, QuotedAlt(2, false)))
    ensures Classify("\"k\"") == Str
  {
    var s := "\"k\",";
    assert BodyEnd(s, 1) == 2 by {
      assert ItemEnd(s, 1) == Some(2);
      assert ItemEnd(s, 2) == None;
    }
    assert SpaceEnd(s, 3) == 3;
    MatchAtQuote(s, 0);
  }

  /** `"a\"b"`: the escaped quote stays inside one string token. */
  lemma EscapedQuoteInside()
    ensures MatchAt("\"a\\\"b\"", 0) == Some(Match(6, QuotedAlt(5, false)))
  {
    var s := "\"a\\\"b\"";
    assert BodyEnd(s, 1) == 5 by {
      assert ItemEnd(s, 1) == Some(2);
      assert ItemEnd(s, 2) == Some(4);
      assert ItemEnd(s, 4) == Some(5);
      assert ItemEnd(s, 5) == None;
    }
    MatchAtQuote(s, 0);
  }

  /** `-3.5e2`: one number span covering the whole literal. */
  lemma WholeNumber()
    ensures MatchAt("-3.5e2", 0) == Some(Match(6, NumberAlt))
    ensures Classify("-3.5e2") == Number
  {
    var s := "-3.5e2";
    assert DigitsEnd(s, 1) == 2 by { assert DigitsEnd(s, 2) == 2; }
    assert FractionEnd(s, 2) == 4 by { assert DigitsEnd(s, 3) == 4 by { assert DigitsEnd(s, 4) == 4; } }
    assert ExponentEnd(s, 4) == 6 by { assert DigitsEnd(s, 5) == 6 by { assert DigitsEnd(s, 6) == 6; } }
    assert WordMatch(s, 0) == None;
    NumberMatchSound(s, 0);
    assert s[0..6] == s;
    ClassifyNumber(s);
  }
}
