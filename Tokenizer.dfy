/**
 * The word splitter of compareTexts: String.split with the pattern
 * (?<=\s)|(?=\s)|(?<=\p{Punct})|(?=\p{Punct}).  Every match of that pattern
 * is zero-width, so it only marks the positions where the text is cut: just
 * before and just after every whitespace or ASCII punctuation character.
 * A cut at position 0 makes no leading empty string, a cut at the end makes
 * a trailing empty string that split(regex) drops, and a text with no cut
 * at all (the empty text included) comes back as the one-element array
 * holding the text itself.
 */
module Tokenizer {
  import opened CharClass
  import opened Strings

  /** A token made of one whitespace or punctuation character. */
  predicate DelimiterToken(t: string) {
    |t| == 1 && IsDelimiter(t[0])
  }

  /** A token made of one or more word characters. */
  predicate WordToken(t: string) {
    |t| > 0 && All(t, IsWordChar)
  }

  /**
   * What the tokens of a non-empty text look like: they spell the text, each
   * is a single delimiter or a run of word characters, and no two word runs
   * are next to each other (a word run goes as far as it can).
   */
  predicate WellSplit(s: string, ts: seq<string>) {
    && Concat(ts) == s
    && (forall k :: 0 <= k < |ts| ==> DelimiterToken(ts[k]) || WordToken(ts[k]))
    && (forall k :: 0 <= k < |ts| - 1 ==> !(WordToken(ts[k]) && WordToken(ts[k + 1])))
  }

  /** The token that starts s: its first character if that is a delimiter, else the longest run of word characters. */
  function FirstToken(s: string): (t: string)
    requires s != []
    ensures 0 < |t| <= |s| && t == s[..|t|]
    ensures DelimiterToken(t) || WordToken(t)
    ensures WordToken(t) && |t| < |s| ==> IsDelimiter(s[|t|])
  {
    if IsDelimiter(s[0]) then [s[0]] else TakeWhile(s, IsWordChar)
  }

  /** The tokens of s, in order. */
  function Tokens(s: string): seq<string>
    decreases |s|
  {
    if s == [] then [] else
      var t := FirstToken(s);
      [t] + Tokens(s[|t|..])
  }

  /** original.split(...) and corrected.split(...) in compareTexts. */
  function Split(s: string): (ts: seq<string>)
    ensures |ts| > 0
  {
    if s == [] then [""] else [FirstToken(s)] + Tokens(s[|FirstToken(s)|..])
  }

  /** The first character of a concatenation whose first piece is non-empty. */
  lemma ConcatHead(ts: seq<string>)
    requires |ts| > 0 && |ts[0]| > 0
    ensures |Concat(ts)| > 0 && Concat(ts)[0] == ts[0][0]
  {
  }

  /** Putting a token in front of a split gives a split, provided two word runs do not meet. */
  lemma WellSplitCons(t: string, rest: string, ts: seq<string>)
    requires DelimiterToken(t) || WordToken(t)
    requires WellSplit(rest, ts)
    requires WordToken(t) && rest != [] ==> IsDelimiter(rest[0])
    ensures WellSplit(t + rest, [t] + ts)
  {
    var us := [t] + ts;
    assert us[1..] == ts;
    assert Concat(us) == t + Concat(ts);
    if WordToken(t) && ts != [] {
      assert DelimiterToken(ts[0]) || WordToken(ts[0]);
      ConcatHead(ts);
    }
    forall k | 0 <= k < |us| - 1
      ensures !(WordToken(us[k]) && WordToken(us[k + 1]))
    {
      if k > 0 {
        assert us[k] == ts[k - 1] && us[k + 1] == ts[k];
      }
    }
  }

  /** Tokens(s) is a split of s with the shape WellSplit describes. */
  lemma {:induction false} TokensWellSplit(s: string)
    ensures WellSplit(s, Tokens(s))
    decreases |s|
  {
    if s != [] {
      var t := FirstToken(s);
      var rest := s[|t|..];
      TokensWellSplit(rest);
      WellSplitCons(t, rest, Tokens(rest));
      assert t + rest == s;
    }
  }

  /** The split is unique: any token list with the WellSplit shape is Tokens(s). */
  lemma {:induction false} TokensUnique(s: string, ts: seq<string>)
    requires WellSplit(s, ts)
    ensures ts == Tokens(s)
    decreases |s|
  {
    if s != [] {
      assert ts != [];
      var t := ts[0];
      assert DelimiterToken(t) || WordToken(t);
      ConcatHead(ts);
      assert Concat(ts) == t + Concat(ts[1..]);
      var k := |t|;
      assert s[..k] == t && s[k..] == Concat(ts[1..]);
      if IsDelimiter(s[0]) {
        assert t == [s[0]];
      } else {
        assert WordToken(t);
        if k < |s| {
          assert |ts| > 1;
          assert !WordToken(ts[1]);
          assert DelimiterToken(ts[1]);
          ConcatHead(ts[1..]);
          assert s[k] == ts[1][0];
        }
        TakeWhileExact(s, IsWordChar, k);
      }
      assert t == FirstToken(s);
      assert WellSplit(s[k..], ts[1..]) by {
        forall j | 0 <= j < |ts[1..]| - 1
          ensures !(WordToken(ts[1..][j]) && WordToken(ts[1..][j + 1]))
        {
          assert ts[1..][j] == ts[j + 1] && ts[1..][j + 1] == ts[j + 2];
        }
      }
      TokensUnique(s[k..], ts[1..]);
      assert ts == [t] + ts[1..];
    }
  }

  /** Splitting keeps every character: the tokens spell the text again. */
  lemma SplitSpells(s: string)
    ensures Concat(Split(s)) == s
    ensures s == [] ==> Split(s) == [""]
    ensures s != [] ==> Split(s) == Tokens(s) && WellSplit(s, Split(s))
  {
    if s != [] {
      TokensWellSplit(s);
    } else {
      assert Concat([""]) == "" + Concat([]);
    }
  }

  /** The tokens of a text spell it and, unless the text is empty, none of them is empty. */
  lemma SplitPieces(s: string)
    ensures Concat(Split(s)) == s
    ensures s != [] ==> forall t :: t in Split(s) ==> t != []
  {
    SplitSpells(s);
  }

  /** A text without whitespace or punctuation is one token, so "cat" -> "cats" cannot be a pure addition. */
  lemma SplitOfWord(s: string)
    requires s != [] && All(s, IsWordChar)
    ensures Split(s) == [s]
  {
    assert Concat([s]) == s + Concat([]);
    assert WellSplit(s, [s]);
    TokensUnique(s, [s]);
  }

  /** "The cat sat." splits into words, spaces and the full stop, each on its own. */
  lemma SplitSentence()
    ensures Split("The cat sat.") == ["The", " ", "cat", " ", "sat", "."]
  {
    var ts: seq<string> := ["The", " ", "cat", " ", "sat", "."];
    assert Concat(ts) == "The" + Concat(ts[1..]);
    assert Concat(ts[1..]) == " " + Concat(ts[2..]);
    assert Concat(ts[2..]) == "cat" + Concat(ts[3..]);
    assert Concat(ts[3..]) == " " + Concat(ts[4..]);
    assert Concat(ts[4..]) == "sat" + Concat(ts[5..]);
    assert Concat(ts[5..]) == "." + Concat(ts[6..]);
    assert WordToken("The") && WordToken("cat") && WordToken("sat");
    assert !WordToken(" ") by { assert !IsWordChar(" "[0]); }
    assert !WordToken(".") by { assert !IsWordChar("."[0]); }
    assert WellSplit("The cat sat.", ts);
    TokensUnique("The cat sat.", ts);
  }
}
