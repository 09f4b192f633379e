/**
 * smartQuotesExceptCant: straight quotes become typographic ones, except
 * the apostrophe of "can't".
 *
 * The Java code works in three steps: every "can't" (any letter case) is
 * replaced by a placeholder, one left-to-right pass turns each '"' and '\''
 * into a curly quote, and every placeholder is replaced back by the literal
 * "can't".  ProtectCant, Quote and Replace are the three steps, and the
 * method SmartQuotesExceptCant carries the pass as the loop it is.
 *
 * Character.isLetterOrDigit consults the Unicode tables; it is the
 * parameter isLetterOrDigit here.
 */
module SmartQuotes {
  import opened Wrappers

  const Placeholder: string := "__CANT_SMARTQUOTE_PLACEHOLDER__"
  const Cant: string := "can't"

  const LeftDouble: char := '“'
  const RightDouble: char := '”'
  const LeftSingle: char := '‘'
  const RightSingle: char := '’'

  /** The ASCII case folding of a (?i) pattern without UNICODE_CASE. */
  function LowerAscii(c: char): (l: char)
    ensures !('A' <= l <= 'Z')
    ensures !('A' <= c <= 'Z') ==> l == c
  {
    if 'A' <= c <= 'Z' then (c as int + 32) as char else c
  }

  /** The pattern (?i)can't matches at i. */
  predicate IsCantAt(s: string, i: nat) {
    i + 5 <= |s| && LowerAscii(s[i]) == 'c' && LowerAscii(s[i + 1]) == 'a' && LowerAscii(s[i + 2]) == 'n'
    && s[i + 3] == '\'' && LowerAscii(s[i + 4]) == 't'
  }

  /** text.replaceAll("(?i)can't", placeholder): matches taken left to right, without overlap. */
  function ProtectCant(s: string): string
    decreases |s|
  {
    if s == [] then []
    else if IsCantAt(s, 0) then Placeholder + ProtectCant(s[5..])
    else [s[0]] + ProtectCant(s[1..])
  }

  /** String.replace(target, replacement): occurrences taken left to right, without overlap. */
  function Replace(w: string, target: string, replacement: string): string
    requires target != []
    decreases |w|
  {
    if |target| <= |w| && w[..|target|] == target then replacement + Replace(w[|target|..], target, replacement)
    else if w == [] then []
    else [w[0]] + Replace(w[1..], target, replacement)
  }

  /** s with every "can't", in whatever case, written in lower case: what protecting and restoring amount to. */
  function LowerCants(s: string): (r: string)
    ensures |r| == |s|
    decreases |s|
  {
    if s == [] then []
    else if IsCantAt(s, 0) then Cant + LowerCants(s[5..])
    else [s[0]] + LowerCants(s[1..])
  }

  /** The character before position i is a letter or digit. */
  predicate PrevIsLetterOrDigit(t: string, i: nat, isLetterOrDigit: char -> bool) {
    0 < i <= |t| && isLetterOrDigit(t[i - 1])
  }

  /** The character after position i is a letter or digit. */
  predicate NextIsLetterOrDigit(t: string, i: nat, isLetterOrDigit: char -> bool) {
    i + 1 < |t| && isLetterOrDigit(t[i + 1])
  }

  /** A single quote at i with neither neighbour a letter or digit: the paired, stand-alone use. */
  predicate StandAlone(t: string, i: nat, isLetterOrDigit: char -> bool)
    requires i < |t|
  {
    t[i] == '\'' && !PrevIsLetterOrDigit(t, i, isLetterOrDigit) && !NextIsLetterOrDigit(t, i, isLetterOrDigit)
  }

  /** doubleOpen before position n: it starts true and flips at every double quote. */
  predicate DoubleOpenAt(t: string, n: nat)
    requires n <= |t|
  {
    n == 0 || (DoubleOpenAt(t, n - 1) != (t[n - 1] == '"'))
  }

  /** singleOpen before position n: it starts true and flips at every stand-alone single quote. */
  predicate SingleOpenAt(t: string, n: nat, isLetterOrDigit: char -> bool)
    requires n <= |t|
  {
    n == 0 || (SingleOpenAt(t, n - 1, isLetterOrDigit) != StandAlone(t, n - 1, isLetterOrDigit))
  }

  /**
   * The character the pass writes for position i: double quotes open and
   * close in turn; a single quote after a letter or digit closes, one only
   * before a letter or digit opens, and stand-alone ones open and close in
   * turn; anything else is copied.
   */
  function QuoteChar(t: string, i: nat, isLetterOrDigit: char -> bool): char
    requires i < |t|
  {
    if t[i] == '"' then
      if DoubleOpenAt(t, i) then LeftDouble else RightDouble
    else if t[i] == '\'' then
      var prev := PrevIsLetterOrDigit(t, i, isLetterOrDigit);
      var next := NextIsLetterOrDigit(t, i, isLetterOrDigit);
      if prev then RightSingle
      else if next then LeftSingle
      else if SingleOpenAt(t, i, isLetterOrDigit) then LeftSingle
      else RightSingle
    else t[i]
  }

  /** The whole pass, position by position. */
  function Quote(t: string, isLetterOrDigit: char -> bool): (q: string)
    ensures |q| == |t|
  {
    seq(|t|, i requires 0 <= i < |t| => QuoteChar(t, i, isLetterOrDigit))
  }

  /** What the pass has written after n characters. */
  function QuotedUpTo(t: string, n: nat, isLetterOrDigit: char -> bool): string
    requires n <= |t|
  {
    if n == 0 then [] else QuotedUpTo(t, n - 1, isLetterOrDigit) + [QuoteChar(t, n - 1, isLetterOrDigit)]
  }

  /** After the whole text the pass has written Quote of it. */
  lemma QuotedUpToAll(t: string, isLetterOrDigit: char -> bool)
    ensures QuotedUpTo(t, |t|, isLetterOrDigit) == Quote(t, isLetterOrDigit)
  {
    QuotedUpToPrefix(t, |t|, isLetterOrDigit);
  }

  lemma {:induction false} QuotedUpToPrefix(t: string, n: nat, isLetterOrDigit: char -> bool)
    requires n <= |t|
    ensures QuotedUpTo(t, n, isLetterOrDigit) == Quote(t, isLetterOrDigit)[..n]
  {
    if n > 0 {
      QuotedUpToPrefix(t, n - 1, isLetterOrDigit);
      var q := Quote(t, isLetterOrDigit);
      assert q[..n] == q[..n - 1] + [q[n - 1]];
    }
  }

  /** The three steps composed. */
  function SmartQuoted(s: string, isLetterOrDigit: char -> bool): string {
    Replace(Quote(ProtectCant(s), isLetterOrDigit), Placeholder, Cant)
  }

  /** smartQuotesExceptCant: null stays null; otherwise protect, convert in one pass with two toggles, restore. */
  method SmartQuotesExceptCant(text: Option<string>, isLetterOrDigit: char -> bool) returns (result: Option<string>)
    ensures text.None? ==> result.None?
    ensures text.Some? ==> result == Some(SmartQuoted(text.value, isLetterOrDigit))
  {
    if text.None? {
      return None;
    }
    var t := ProtectCant(text.value);
    var sb: string := [];
    var doubleOpen := true;
    var singleOpen := true;
    for i := 0 to |t|
      invariant sb == QuotedUpTo(t, i, isLetterOrDigit)
      invariant doubleOpen == DoubleOpenAt(t, i)
      invariant singleOpen == SingleOpenAt(t, i, isLetterOrDigit)
    {
      var ch := t[i];
      var quoted: char;
      if ch == '"' {
        quoted := if doubleOpen then LeftDouble else RightDouble;
        doubleOpen := !doubleOpen;
      } else if ch == '\'' {
        var prevIsLetterOrDigit := i > 0 && isLetterOrDigit(t[i - 1]);
        var nextIsLetterOrDigit := i + 1 < |t| && isLetterOrDigit(t[i + 1]);
        if prevIsLetterOrDigit && nextIsLetterOrDigit {
          quoted := RightSingle;
        } else if prevIsLetterOrDigit && !nextIsLetterOrDigit {
          quoted := RightSingle;
        } else if !prevIsLetterOrDigit && nextIsLetterOrDigit {
          quoted := LeftSingle;
        } else {
          quoted := if singleOpen then LeftSingle else RightSingle;
          singleOpen := !singleOpen;
        }
      } else {
        quoted := ch;
      }
      assert quoted == QuoteChar(t, i, isLetterOrDigit);
      sb := sb + [quoted];
    }
    QuotedUpToAll(t, isLetterOrDigit);
    result := Some(Replace(sb, Placeholder, Cant));
  }

  // ---------------------------------------------------------------------
  // Curly quotes read back as straight ones

  predicate IsCurly(c: char) {
    c == LeftDouble || c == RightDouble || c == LeftSingle || c == RightSingle
  }

  predicate NoCurly(s: string) {
    forall i :: 0 <= i < |s| ==> !IsCurly(s[i])
  }

  /** A curly quote read as the straight quote it replaces. */
  function Unquote(c: char): (u: char)
    ensures u != c ==> u == '"' || u == '\''
  {
    if c == LeftDouble || c == RightDouble then '"'
    else if c == LeftSingle || c == RightSingle then '\''
    else c
  }

  function Straighten(s: string): (r: string)
    ensures |r| == |s|
  {
    seq(|s|, i requires 0 <= i < |s| => Unquote(s[i]))
  }

  lemma StraightenAppend(a: string, b: string)
    ensures Straighten(a + b) == Straighten(a) + Straighten(b)
  {
  }

  /** The pass only makes quotes curly: reading them back straight gives its input. */
  lemma StraightenQuote(t: string, isLetterOrDigit: char -> bool)
    requires NoCurly(t)
    ensures Straighten(Quote(t, isLetterOrDigit)) == t
  {
    var q := Quote(t, isLetterOrDigit);
    forall i | 0 <= i < |t|
      ensures Straighten(q)[i] == t[i]
    {
      assert q[i] == QuoteChar(t, i, isLetterOrDigit);
    }
  }

  /** The pass writes no straight quote at all. */
  lemma QuoteLeavesNoStraightQuote(t: string, isLetterOrDigit: char -> bool)
    ensures '"' !in Quote(t, isLetterOrDigit) && '\'' !in Quote(t, isLetterOrDigit)
  {
    var q := Quote(t, isLetterOrDigit);
    forall i | 0 <= i < |q|
      ensures q[i] != '"' && q[i] != '\''
    {
      assert q[i] == QuoteChar(t, i, isLetterOrDigit);
    }
  }

  /** The pass changes nothing but quotes, and never writes an underscore where there was none. */
  lemma QuoteKeepsOthers(t: string, isLetterOrDigit: char -> bool)
    ensures forall i :: 0 <= i < |t| && t[i] != '"' && t[i] != '\'' ==> Quote(t, isLetterOrDigit)[i] == t[i]
    ensures '_' !in t ==> '_' !in Quote(t, isLetterOrDigit)
  {
    var q := Quote(t, isLetterOrDigit);
    forall i | 0 <= i < |t|
      ensures t[i] != '"' && t[i] != '\'' ==> q[i] == t[i]
      ensures t[i] != '_' ==> q[i] != '_'
    {
      assert q[i] == QuoteChar(t, i, isLetterOrDigit);
    }
  }

  // ---------------------------------------------------------------------
  // Double quotes alternate

  /** No double quote among positions lo .. n-1 leaves the toggle as it was. */
  lemma {:induction false} DoubleOpenUnchanged(t: string, lo: nat, n: nat)
    requires lo <= n <= |t|
    requires forall k :: lo <= k < n ==> t[k] != '"'
    ensures DoubleOpenAt(t, n) == DoubleOpenAt(t, lo)
    decreases n
  {
    if n > lo {
      DoubleOpenUnchanged(t, lo, n - 1);
    }
  }

  /** Two double quotes with none between them get opposite marks: one opens, the other closes. */
  lemma DoubleQuotesAlternate(t: string, isLetterOrDigit: char -> bool, i: nat, j: nat)
    requires i < j < |t| && t[i] == '"' && t[j] == '"'
    requires forall k :: i < k < j ==> t[k] != '"'
    ensures {Quote(t, isLetterOrDigit)[i], Quote(t, isLetterOrDigit)[j]} == {LeftDouble, RightDouble}
  {
    DoubleOpenUnchanged(t, i + 1, j);
  }

  /** The first double quote opens. */
  lemma FirstDoubleQuoteOpens(t: string, isLetterOrDigit: char -> bool, i: nat)
    requires i < |t| && t[i] == '"'
    requires forall k :: 0 <= k < i ==> t[k] != '"'
    ensures Quote(t, isLetterOrDigit)[i] == LeftDouble
  {
    DoubleOpenUnchanged(t, 0, i);
  }

  /** An apostrophe between two letters or digits, as in a contraction, becomes a right single quote. */
  lemma ContractionApostrophe(t: string, isLetterOrDigit: char -> bool, i: nat)
    requires 0 < i && i + 1 < |t| && t[i] == '\''
    requires isLetterOrDigit(t[i - 1]) && isLetterOrDigit(t[i + 1])
    ensures Quote(t, isLetterOrDigit)[i] == RightSingle
  {
  }

  // ---------------------------------------------------------------------
  // Protecting and restoring "can't"

  /** Restoring after protecting lowers every "can't" and changes nothing else, for text without underscores. */
  lemma {:induction false} ProtectRestore(s: string)
    requires '_' !in s
    ensures Replace(ProtectCant(s), Placeholder, Cant) == LowerCants(s)
    decreases |s|
  {
    if s == [] {
    } else if IsCantAt(s, 0) {
      ReplaceAtFront(Placeholder, Cant, ProtectCant(s[5..]));
      ProtectRestore(s[5..]);
    } else {
      var rest := ProtectCant(s[1..]);
      var w := [s[0]] + rest;
      assert w[0] == s[0];
      if |Placeholder| <= |w| {
        assert w[..|Placeholder|][0] != Placeholder[0];
      }
      assert w[1..] == rest;
      ProtectRestore(s[1..]);
    }
  }

  /** An underscore in the text can be taken for part of the placeholder: the placeholder itself comes back as "can't". */
  lemma PlaceholderInTextBecomesCant(isLetterOrDigit: char -> bool)
    ensures SmartQuoted(Placeholder, isLetterOrDigit) == Cant
  {
    PlaceholderHasNoQuote();
    NoApostropheNoCant(Placeholder);
    ProtectWithoutCant(Placeholder);
    QuoteWithoutQuotes(Placeholder, isLetterOrDigit);
    ReplaceAtFront(Placeholder, Cant, []);
    assert Placeholder + [] == Placeholder;
  }

  lemma PlaceholderHasNoQuote()
    ensures '\'' !in Placeholder && '"' !in Placeholder && NoCurly(Placeholder)
  {
  }

  /** Text without quotes goes through the pass unchanged. */
  lemma QuoteWithoutQuotes(t: string, isLetterOrDigit: char -> bool)
    requires '"' !in t && '\'' !in t
    ensures Quote(t, isLetterOrDigit) == t
  {
    QuoteKeepsOthers(t, isLetterOrDigit);
  }

  /** An occurrence at the front is replaced. */
  lemma ReplaceAtFront(target: string, replacement: string, rest: string)
    requires target != []
    ensures Replace(target + rest, target, replacement) == replacement + Replace(rest, target, replacement)
  {
    var w := target + rest;
    assert w[..|target|] == target;
    assert w[|target|..] == rest;
  }

  /** The pattern needs an apostrophe. */
  lemma NoApostropheNoCant(s: string)
    requires '\'' !in s
    ensures forall i: nat :: !IsCantAt(s, i)
  {
    forall i: nat
      ensures !IsCantAt(s, i)
    {
      if i + 5 <= |s| {
        assert s[i + 3] in s;
      }
    }
  }

  /** Text without a "can't" is not changed by protecting it. */
  lemma {:induction false} ProtectWithoutCant(s: string)
    requires forall i: nat :: !IsCantAt(s, i)
    ensures ProtectCant(s) == s
    decreases |s|
  {
    if s != [] {
      assert !IsCantAt(s, 0);
      forall i: nat
        ensures !IsCantAt(s[1..], i)
      {
        assert !IsCantAt(s, i + 1);
      }
      ProtectWithoutCant(s[1..]);
    }
  }

  /** Text without the first character of the target holds no occurrence, so replacing leaves it alone. */
  lemma {:induction false} ReplaceWithoutTarget(w: string, target: string, replacement: string)
    requires target != [] && target[0] !in w
    ensures Replace(w, target, replacement) == w
    decreases |w|
  {
    if w != [] {
      if |target| <= |w| {
        assert w[..|target|][0] != target[0];
      }
      ReplaceWithoutTarget(w[1..], target, replacement);
    }
  }

  /** Replacing adds no character that is in neither the text nor the replacement. */
  lemma {:induction false} ReplaceAddsOnlyReplacement(w: string, target: string, replacement: string, c: char)
    requires target != [] && c !in w && c !in replacement
    ensures c !in Replace(w, target, replacement)
    decreases |w|
  {
    if |target| <= |w| && w[..|target|] == target {
      ReplaceAddsOnlyReplacement(w[|target|..], target, replacement, c);
    } else if w != [] {
      ReplaceAddsOnlyReplacement(w[1..], target, replacement, c);
    }
  }

  /** A pattern without quotes is found the same before and after quotes are read back straight. */
  lemma PatternFoundStraightened(w: string, p: string)
    requires '"' !in p && '\'' !in p && NoCurly(p) && |p| <= |w|
    ensures (w[..|p|] == p) <==> (Straighten(w)[..|p|] == p)
  {
    var a := w[..|p|];
    var b := Straighten(w)[..|p|];
    forall k | 0 <= k < |p|
      ensures b[k] == p[k] <==> a[k] == p[k]
    {
      assert p[k] in p;
      assert p[k] != '"' && p[k] != '\'' && !IsCurly(p[k]);
      assert b[k] == Unquote(a[k]);
    }
    if b == p {
      assert a == p;
    }
  }

  lemma CantIsStraight()
    ensures Straighten(Cant) == Cant
  {
    assert Unquote(Cant[3]) == Cant[3];
  }

  /** Reading quotes back straight commutes with replacing a target and a replacement that hold no quotes. */
  lemma {:induction false} ReplaceStraighten(w: string, target: string, replacement: string)
    requires target != [] && '"' !in target && '\'' !in target && NoCurly(target)
    requires Straighten(replacement) == replacement
    ensures Straighten(Replace(w, target, replacement)) == Replace(Straighten(w), target, replacement)
    decreases |w|
  {
    var v := Straighten(w);
    if |target| <= |w| {
      PatternFoundStraightened(w, target);
    }
    if |target| <= |w| && w[..|target|] == target {
      var rest := w[|target|..];
      ReplaceStraighten(rest, target, replacement);
      assert v[|target|..] == Straighten(rest);
      StraightenAppend(replacement, Replace(rest, target, replacement));
    } else if w != [] {
      ReplaceStraighten(w[1..], target, replacement);
      assert v[1..] == Straighten(w[1..]);
      StraightenAppend([w[0]], Replace(w[1..], target, replacement));
    }
  }

  /** Protecting adds no curly quote. */
  lemma {:induction false} ProtectKeepsNoCurly(s: string)
    requires NoCurly(s)
    ensures NoCurly(ProtectCant(s))
    decreases |s|
  {
    if s != [] {
      if IsCantAt(s, 0) {
        ProtectKeepsNoCurly(s[5..]);
        PlaceholderHasNoQuote();
      } else {
        ProtectKeepsNoCurly(s[1..]);
      }
    }
  }

  // ---------------------------------------------------------------------
  // What the whole function promises

  /**
   * "Only replace quotes, preserve can't": for text without underscores or
   * curly quotes, the result has the length of the input, and reading its
   * curly quotes back straight gives the input with every "can't" in lower
   * case.
   */
  lemma SmartQuotesChangeOnlyQuotes(s: string, isLetterOrDigit: char -> bool)
    requires '_' !in s && NoCurly(s)
    ensures Straighten(SmartQuoted(s, isLetterOrDigit)) == LowerCants(s)
    ensures |SmartQuoted(s, isLetterOrDigit)| == |s|
  {
    var p := ProtectCant(s);
    var q := Quote(p, isLetterOrDigit);
    ProtectKeepsNoCurly(s);
    StraightenQuote(p, isLetterOrDigit);
    PlaceholderHasNoQuote();
    CantIsStraight();
    ReplaceStraighten(q, Placeholder, Cant);
    ProtectRestore(s);
  }

  /** q is p after the pass: same length, every quote made curly, every other character copied. */
  predicate QuotedFrom(p: string, q: string) {
    |q| == |p|
    && forall i :: 0 <= i < |p| ==> if p[i] == '"' || p[i] == '\'' then IsCurly(q[i]) else q[i] == p[i]
  }

  lemma QuoteIsQuotedFrom(t: string, isLetterOrDigit: char -> bool)
    ensures QuotedFrom(t, Quote(t, isLetterOrDigit))
  {
    var q := Quote(t, isLetterOrDigit);
    forall i | 0 <= i < |t|
      ensures if t[i] == '"' || t[i] == '\'' then IsCurly(q[i]) else q[i] == t[i]
    {
      assert q[i] == QuoteChar(t, i, isLetterOrDigit);
    }
  }

  /** A quoted placeholder is the placeholder itself, since it holds no quote. */
  lemma QuotedPlaceholder(p: string, q: string)
    requires |Placeholder| <= |p| && p[..|Placeholder|] == Placeholder && QuotedFrom(p, q)
    ensures q[..|Placeholder|] == Placeholder && QuotedFrom(p[|Placeholder|..], q[|Placeholder|..])
  {
    PlaceholderHasNoQuote();
    forall i | 0 <= i < |Placeholder|
      ensures q[i] == Placeholder[i]
    {
      assert p[i] == Placeholder[i];
      assert Placeholder[i] in Placeholder;
    }
    var n := |Placeholder|;
    forall i | 0 <= i < |p| - n
      ensures if p[n..][i] == '"' || p[n..][i] == '\'' then IsCurly(q[n..][i]) else q[n..][i] == p[n..][i]
    {
      assert p[n..][i] == p[n + i] && q[n..][i] == q[n + i];
    }
  }

  /**
   * Restoring the placeholders in any quoted form of ProtectCant(s) gives a
   * text as long as s whose straight apostrophes stand exactly at offset 3
   * of the places where s matches "can't".
   */
  lemma {:induction false} RestoredApostrophes(s: string, q: string)
    requires '_' !in s && QuotedFrom(ProtectCant(s), q)
    ensures |Replace(q, Placeholder, Cant)| == |s|
    ensures forall i :: 0 <= i < |s| ==> (Replace(q, Placeholder, Cant)[i] == '\'' <==> 3 <= i && IsCantAt(s, i - 3))
    decreases |s|
  {
    var r := Replace(q, Placeholder, Cant);
    if s == [] {
    } else if IsCantAt(s, 0) {
      var p := ProtectCant(s);
      var rest := s[5..];
      assert p == Placeholder + ProtectCant(rest);
      assert p[..|Placeholder|] == Placeholder;
      QuotedPlaceholder(p, q);
      assert p[|Placeholder|..] == ProtectCant(rest);
      assert '_' !in rest by {
        forall c | c in rest ensures c != '_' {
          var k :| 0 <= k < |rest| && rest[k] == c;
          assert s[5 + k] == c;
        }
      }
      var q' := q[|Placeholder|..];
      RestoredApostrophes(rest, q');
      ApostrophesAfterCant(s, r, Replace(q', Placeholder, Cant));
    } else {
      var p := ProtectCant(s);
      var rest := s[1..];
      assert p == [s[0]] + ProtectCant(rest);
      assert s[0] in s;
      assert q[0] != '_' && q[0] != '\'' by {
        assert p[0] == s[0];
      }
      if |Placeholder| <= |q| {
        assert q[..|Placeholder|][0] != Placeholder[0];
      }
      var q' := q[1..];
      assert QuotedFrom(ProtectCant(rest), q') by {
        forall i | 0 <= i < |q'|
          ensures if p[1..][i] == '"' || p[1..][i] == '\'' then IsCurly(q'[i]) else q'[i] == p[1..][i]
        {
          assert p[1..][i] == p[1 + i] && q'[i] == q[1 + i];
        }
        assert p[1..] == ProtectCant(rest);
      }
      assert '_' !in rest by {
        forall c | c in rest ensures c != '_' {
          var k :| 0 <= k < |rest| && rest[k] == c;
          assert s[1 + k] == c;
        }
      }
      RestoredApostrophes(rest, q');
      ApostrophesAfterOther(s, r, q[0], Replace(q', Placeholder, Cant));
    }
  }

  /** The step of RestoredApostrophes where s starts with "can't": the result starts with Cant. */
  lemma ApostrophesAfterCant(s: string, r: string, r': string)
    requires IsCantAt(s, 0) && r == Cant + r' && |r'| == |s| - 5
    requires forall j :: 0 <= j < |s| - 5 ==> (r'[j] == '\'' <==> 3 <= j && IsCantAt(s[5..], j - 3))
    ensures |r| == |s|
    ensures forall i :: 0 <= i < |s| ==> (r[i] == '\'' <==> 3 <= i && IsCantAt(s, i - 3))
  {
    forall i | 0 <= i < |s|
      ensures r[i] == '\'' <==> 3 <= i && IsCantAt(s, i - 3)
    {
      if i >= 5 {
        assert r[i] == r'[i - 5];
        if i >= 8 {
          assert IsCantAt(s, i - 3) <==> IsCantAt(s[5..], i - 8);
        } else {
          assert !IsCantAt(s, i - 3) by {
            assert LowerAscii(s[i - 3]) != 'c';
          }
        }
      } else if i == 4 {
        assert !IsCantAt(s, 1) by {
          assert LowerAscii(s[1]) != 'c';
        }
      }
    }
  }

  /** The step of RestoredApostrophes where s does not start with "can't": one character, not an apostrophe, is copied. */
  lemma ApostrophesAfterOther(s: string, r: string, c: char, r': string)
    requires s != [] && !IsCantAt(s, 0) && c != '\'' && r == [c] + r' && |r'| == |s| - 1
    requires forall j :: 0 <= j < |s| - 1 ==> (r'[j] == '\'' <==> 3 <= j && IsCantAt(s[1..], j - 3))
    ensures |r| == |s|
    ensures forall i :: 0 <= i < |s| ==> (r[i] == '\'' <==> 3 <= i && IsCantAt(s, i - 3))
  {
    forall i | 0 <= i < |s|
      ensures r[i] == '\'' <==> 3 <= i && IsCantAt(s, i - 3)
    {
      if i >= 1 {
        assert r[i] == r'[i - 1];
        if i >= 4 {
          assert IsCantAt(s, i - 3) <==> IsCantAt(s[1..], i - 4);
        }
      }
    }
  }

  /**
   * Every "can't" keeps a straight apostrophe, and no other straight single
   * quote survives: for text without underscores, position i of the result
   * holds '\'' exactly when the input matches "can't" at i - 3.
   */
  lemma StraightApostrophesAreCants(s: string, isLetterOrDigit: char -> bool)
    requires '_' !in s
    ensures |SmartQuoted(s, isLetterOrDigit)| == |s|
    ensures forall i :: 0 <= i < |SmartQuoted(s, isLetterOrDigit)| ==>
      (SmartQuoted(s, isLetterOrDigit)[i] == '\'' <==> 3 <= i && IsCantAt(s, i - 3))
  {
    QuoteIsQuotedFrom(ProtectCant(s), isLetterOrDigit);
    RestoredApostrophes(s, Quote(ProtectCant(s), isLetterOrDigit));
  }

  /** No straight double quote survives. */
  lemma NoStraightDoubleQuote(s: string, isLetterOrDigit: char -> bool)
    ensures '"' !in SmartQuoted(s, isLetterOrDigit)
  {
    var q := Quote(ProtectCant(s), isLetterOrDigit);
    QuoteLeavesNoStraightQuote(ProtectCant(s), isLetterOrDigit);
    ReplaceAddsOnlyReplacement(q, Placeholder, Cant, '"');
  }

  /** In text without a "can't" or an underscore every quote is converted, and nothing else changes. */
  lemma WithoutCantAllQuotesConverted(s: string, isLetterOrDigit: char -> bool)
    requires '_' !in s
    requires forall i: nat :: !IsCantAt(s, i)
    ensures SmartQuoted(s, isLetterOrDigit) == Quote(s, isLetterOrDigit)
    ensures '"' !in SmartQuoted(s, isLetterOrDigit) && '\'' !in SmartQuoted(s, isLetterOrDigit)
  {
    ProtectWithoutCant(s);
    QuoteKeepsOthers(s, isLetterOrDigit);
    ReplaceWithoutTarget(Quote(s, isLetterOrDigit), Placeholder, Cant);
    QuoteLeavesNoStraightQuote(s, isLetterOrDigit);
  }

  /** "Can't" keeps its straight apostrophe but comes back in lower case. */
  lemma CapitalCantLowered(isLetterOrDigit: char -> bool)
    ensures SmartQuoted("Can't", isLetterOrDigit) == Cant
  {
    var s := "Can't";
    assert IsCantAt(s, 0);
    assert s[5..] == [];
    assert ProtectCant(s) == Placeholder + [];
    PlaceholderHasNoQuote();
    QuoteWithoutQuotes(Placeholder, isLetterOrDigit);
    ReplaceAtFront(Placeholder, Cant, []);
    assert Placeholder + [] == Placeholder;
  }

  /** "don't" gets a right single quote. */
  lemma DontGetsRightQuote(isLetterOrDigit: char -> bool)
    requires isLetterOrDigit('n') && isLetterOrDigit('t')
    ensures SmartQuoted("don't", isLetterOrDigit) == "don’t"
  {
    var s := "don't";
    forall i: nat
      ensures !IsCantAt(s, i)
    {
      if i == 0 {
        assert LowerAscii(s[0]) == 'd';
      }
    }
    WithoutCantAllQuotesConverted(s, isLetterOrDigit);
    var q := Quote(s, isLetterOrDigit);
    assert q[3] == RightSingle;
    QuoteKeepsOthers(s, isLetterOrDigit);
  }
}
