/**
 * The placeholder restorer (restorePlaceholders): after correction, every
 * complete token «SUPSUB_<n>» whose n parses as a valid index into the
 * placeholder list is replaced by that placeholder's original text; any
 * other token text is copied unchanged.
 *
 * RestoreFrom is the specification.  Like the Java loop it works on a
 * position i in the text, with startsWith(prefix, i) and indexOf("»", i).
 */
module Restoring {
  import opened Wrappers
  import opened JavaInt
  import opened CharClass
  import opened Masking
  import opened Strings

  /** String.startsWith(prefix, i): prefix occurs in s at position i. */
  predicate StartsWithAt(s: string, prefix: string, i: nat) {
    i + |prefix| <= |s| && forall j :: 0 <= j < |prefix| ==> s[i + j] == prefix[j]
  }

  /** String.indexOf(c, from): the first position at or after from that holds c, if any. */
  function IndexOfFrom(s: string, c: char, from: nat): (r: Option<nat>)
    ensures r.Some? ==> from <= r.value < |s| && s[r.value] == c && forall j :: from <= j < r.value ==> s[j] != c
    ensures r.None? ==> forall j :: from <= j < |s| ==> s[j] != c
    decreases |s| - from
  {
    if from >= |s| then None
    else if s[from] == c then Some(from)
    else IndexOfFrom(s, c, from + 1)
  }

  /** What the restorer writes for a complete token «SUPSUB_numPart». */
  function Replacement<F>(numPart: string, phs: seq<PlaceholderInfo<F>>): string {
    match ParseInt(numPart)
    case Some(v) => if 0 <= v < |phs| then phs[v].originalText else TokenOpen + numPart + [TokenClose]
    case None => TokenOpen + numPart + [TokenClose]
  }

  /** The opener holds no "»", so the "»" that closes a token comes after the whole opener. */
  lemma CloseAfterOpen(s: string, i: nat)
    requires StartsWithAt(s, TokenOpen, i)
    ensures IndexOfFrom(s, TokenClose, i).Some? ==> IndexOfFrom(s, TokenClose, i).value >= i + |TokenOpen|
  {
    forall j | i <= j < i + |TokenOpen|
      ensures s[j] != TokenClose
    {
      assert s[i + (j - i)] == TokenOpen[j - i];
    }
  }

  /** Where the "»" of a complete token starting at i is: the opener is at i and a "»" follows. */
  function TokenEnd(s: string, i: nat): (r: Option<nat>)
    ensures r.Some? ==> i + |TokenOpen| <= r.value < |s| && s[r.value] == TokenClose
  {
    if StartsWithAt(s, TokenOpen, i) then CloseAfterOpen(s, i); IndexOfFrom(s, TokenClose, i) else None
  }

  /**
   * One pass of the loop of restorePlaceholders at position i: what it
   * appends and the position it goes on from.  A complete token is
   * replaced as Replacement says and skipped up to and including its "»";
   * any other character is copied.
   */
  function RestoreStep<F>(s: string, i: nat, phs: seq<PlaceholderInfo<F>>): (r: (string, nat))
    requires i < |s|
    ensures i < r.1 <= |s|
  {
    match TokenEnd(s, i)
    case Some(end) => (Replacement(s[i + |TokenOpen|..end], phs), end + 1)
    case None => ([s[i]], i + 1)
  }

  /** What restorePlaceholders appends from position i of s onward. */
  function RestoreFrom<F>(s: string, i: nat, phs: seq<PlaceholderInfo<F>>): string
    decreases |s| - i
  {
    if i >= |s| then []
    else
      var step := RestoreStep(s, i, phs);
      step.0 + RestoreFrom(s, step.1, phs)
  }

  /** restorePlaceholders(s, phs). */
  function Restore<F>(s: string, phs: seq<PlaceholderInfo<F>>): string {
    RestoreFrom(s, 0, phs)
  }

  /** restorePlaceholders: the Java loop, copying characters and replacing each complete token. */
  method RestorePlaceholders<F>(maskedText: string, placeholders: seq<PlaceholderInfo<F>>) returns (result: string)
    ensures result == Restore(maskedText, placeholders)
  {
    result := [];
    var i := 0;
    while i < |maskedText|
      invariant i <= |maskedText|
      invariant result + RestoreFrom(maskedText, i, placeholders) == Restore(maskedText, placeholders)
      decreases |maskedText| - i
    {
      var piece, next := RestoreAt(maskedText, i, placeholders);
      assert RestoreFrom(maskedText, i, placeholders) == piece + RestoreFrom(maskedText, next, placeholders);
      Resume(result, piece, RestoreFrom(maskedText, next, placeholders),
             RestoreFrom(maskedText, i, placeholders), Restore(maskedText, placeholders));
      result := result + piece;
      i := next;
    }
  }

  /** The body of the loop of restorePlaceholders at position i. */
  method RestoreAt<F>(maskedText: string, i: nat, placeholders: seq<PlaceholderInfo<F>>) returns (piece: string, next: nat)
    requires i < |maskedText|
    ensures (piece, next) == RestoreStep(maskedText, i, placeholders)
  {
    if StartsWithAt(maskedText, TokenOpen, i) {
      var found := IndexOfFrom(maskedText, TokenClose, i);
      if found.Some? {
        var end := found.value;
        CloseAfterOpen(maskedText, i);
        var numPart := maskedText[i + 8..end];
        piece := TokenReplacement(numPart, placeholders);
        next := end + 1;
        return;
      }
    }
    piece := [maskedText[i]];
    next := i + 1;
  }

  /**
   * The try block of restorePlaceholders for a complete token: a parsed
   * index inside the list gives that placeholder's original text; an index
   * out of range or a NumberFormatException puts the token back as it was.
   */
  method TokenReplacement<F>(numPart: string, placeholders: seq<PlaceholderInfo<F>>) returns (piece: string)
    ensures piece == Replacement(numPart, placeholders)
  {
    var parsed := ParseInt(numPart);
    if parsed.Some? {
      var index := parsed.value;
      if 0 <= index < |placeholders| {
        piece := placeholders[index].originalText;
      } else {
        piece := TokenOpen + numPart + [TokenClose];
      }
    } else {
      piece := TokenOpen + numPart + [TokenClose];
    }
  }

  /** The invariant of the loop survives a step that writes piece and moves past it. */
  lemma Resume(done: string, piece: string, restAfter: string, restBefore: string, whole: string)
    requires done + restBefore == whole && restBefore == piece + restAfter
    ensures (done + piece) + restAfter == whole
  {
    Assoc(done, piece, restAfter);
  }

  // ---------------------------------------------------------------------
  // Properties of the restorer
  // ---------------------------------------------------------------------

  /** indexOf finds the first c at or after from: a position with c and no c before it is the answer. */
  lemma IndexOfFromFirst(s: string, c: char, from: nat, v: nat)
    requires from <= v < |s| && s[v] == c
    requires forall j :: from <= j < v ==> s[j] != c
    ensures IndexOfFrom(s, c, from) == Some(v)
  {
    var r := IndexOfFrom(s, c, from);
  }

  /** RestoreFrom takes one loop pass and goes on from where the pass ends. */
  lemma RestoreFromUnfold<F>(s: string, i: nat, phs: seq<PlaceholderInfo<F>>)
    requires i < |s|
    ensures RestoreFrom(s, i, phs) == RestoreStep(s, i, phs).0 + RestoreFrom(s, RestoreStep(s, i, phs).1, phs)
  {
  }

  /** Text in front of t does not change what indexOf finds inside t. */
  lemma IndexOfFromShift(p: string, t: string, c: char, j: nat)
    ensures IndexOfFrom(p + t, c, |p| + j).Some? == IndexOfFrom(t, c, j).Some?
    ensures IndexOfFrom(t, c, j).Some? ==> IndexOfFrom(p + t, c, |p| + j).value == |p| + IndexOfFrom(t, c, j).value
  {
    var r := IndexOfFrom(t, c, j);
    if r.Some? {
      forall k | |p| + j <= k < |p| + r.value
        ensures (p + t)[k] != c
      {
        assert (p + t)[k] == t[k - |p|];
      }
      IndexOfFromFirst(p + t, c, |p| + j, |p| + r.value);
    } else {
      forall k | |p| + j <= k < |p + t|
        ensures (p + t)[k] != c
      {
        assert (p + t)[k] == t[k - |p|];
      }
    }
  }

  /** Text in front of t does not change whether a complete token starts at a position of t, nor where it ends. */
  lemma TokenEndShift(p: string, t: string, j: nat)
    requires j < |t|
    ensures TokenEnd(p + t, |p| + j).Some? == TokenEnd(t, j).Some?
    ensures TokenEnd(t, j).Some? ==> TokenEnd(p + t, |p| + j).value == |p| + TokenEnd(t, j).value
  {
    IndexOfFromShift(p, t, TokenClose, j);
    if StartsWithAt(t, TokenOpen, j) {
      forall k | 0 <= k < |TokenOpen|
        ensures (p + t)[|p| + j + k] == TokenOpen[k]
      {
        assert (p + t)[|p| + j + k] == t[j + k];
      }
    } else if StartsWithAt(p + t, TokenOpen, |p| + j) {
      forall k | 0 <= k < |TokenOpen|
        ensures t[j + k] == TokenOpen[k]
      {
        assert (p + t)[|p| + j + k] == t[j + k];
      }
    }
  }

  /** One pass of the loop at position |p| + j of p + t does what it does at position j of t. */
  lemma StepShift<F>(p: string, t: string, j: nat, phs: seq<PlaceholderInfo<F>>)
    requires j < |t|
    ensures RestoreStep(p + t, |p| + j, phs).0 == RestoreStep(t, j, phs).0
    ensures RestoreStep(p + t, |p| + j, phs).1 == |p| + RestoreStep(t, j, phs).1
  {
    TokenEndShift(p, t, j);
    var e := TokenEnd(t, j);
    if e.Some? {
      var end := e.value;
      assert (p + t)[|p| + j + |TokenOpen|..|p| + end] == t[j + |TokenOpen|..end];
    } else {
      assert (p + t)[|p| + j] == t[j];
    }
  }

  /** The restorer only looks forward: text already passed does not change what follows. */
  lemma {:induction false} RestoreFromShift<F>(p: string, t: string, j: nat, phs: seq<PlaceholderInfo<F>>)
    requires j <= |t|
    ensures RestoreFrom(p + t, |p| + j, phs) == RestoreFrom(t, j, phs)
    decreases |t| - j
  {
    if j < |t| {
      RestoreFromShift(p, t, RestoreStep(t, j, phs).1, phs);
      ShiftStep(p, t, j, phs);
    }
  }

  lemma ShiftStep<F>(p: string, t: string, j: nat, phs: seq<PlaceholderInfo<F>>)
    requires j < |t|
    requires RestoreFrom(p + t, |p| + RestoreStep(t, j, phs).1, phs) == RestoreFrom(t, RestoreStep(t, j, phs).1, phs)
    ensures RestoreFrom(p + t, |p| + j, phs) == RestoreFrom(t, j, phs)
  {
    StepShift(p, t, j, phs);
    RestoreFromUnfold(t, j, phs);
    RestoreFromUnfold(p + t, |p| + j, phs);
  }

  /** A character other than '«' at the head of the text is copied. */
  lemma RestoreCharHead<F>(c: char, t: string, phs: seq<PlaceholderInfo<F>>)
    requires c != TokenOpen[0]
    ensures Restore([c] + t, phs) == [c] + Restore(t, phs)
  {
    var s := [c] + t;
    assert !StartsWithAt(s, TokenOpen, 0) by {
      assert s[0 + 0] == c;
    }
    assert RestoreStep(s, 0, phs) == ([c], 1);
    RestoreFromShift([c], t, 0, phs);
  }

  /** The text «SUPSUB_numPart» for a numPart without "»". */
  function TokenText(numPart: string): string {
    TokenOpen + numPart + [TokenClose]
  }

  /** «SUPSUB_numPart» at the head of the text, with no "»" in numPart, is a complete token ending with its own "»". */
  lemma TokenEndOfText(numPart: string, t: string)
    requires TokenClose !in numPart
    ensures TokenEnd(TokenText(numPart) + t, 0) == Some(|TokenOpen| + |numPart|)
  {
    var s := TokenText(numPart) + t;
    var end := |TokenOpen| + |numPart|;
    assert StartsWithAt(s, TokenOpen, 0) by {
      forall j | 0 <= j < |TokenOpen| ensures s[0 + j] == TokenOpen[j] {
        assert s[j] == TokenText(numPart)[j];
      }
    }
    forall j | 0 <= j < end
      ensures s[j] != TokenClose
    {
      if j < |TokenOpen| {
        assert s[j] == TokenOpen[j];
      } else {
        assert s[j] == numPart[j - |TokenOpen|];
      }
    }
    assert s[end] == TokenClose;
    IndexOfFromFirst(s, TokenClose, 0, end);
  }

  /** A complete token at the head of the text is replaced as Replacement says, and the scan goes on after its "»". */
  lemma RestoreTokenTextHead<F>(numPart: string, t: string, phs: seq<PlaceholderInfo<F>>)
    requires TokenClose !in numPart
    ensures Restore(TokenText(numPart) + t, phs) == Replacement(numPart, phs) + Restore(t, phs)
  {
    var s := TokenText(numPart) + t;
    StepOfTokenText(numPart, t, phs);
    RestoreFromUnfold(s, 0, phs);
    RestoreFromShift(TokenText(numPart), t, 0, phs);
    calc {
      Restore(s, phs);
      RestoreStep(s, 0, phs).0 + RestoreFrom(s, RestoreStep(s, 0, phs).1, phs);
      Replacement(numPart, phs) + RestoreFrom(s, |TokenText(numPart)| + 0, phs);
      Replacement(numPart, phs) + Restore(t, phs);
    }
  }

  lemma StepOfTokenText<F>(numPart: string, t: string, phs: seq<PlaceholderInfo<F>>)
    requires TokenClose !in numPart
    ensures RestoreStep(TokenText(numPart) + t, 0, phs) == (Replacement(numPart, phs), |TokenText(numPart)|)
  {
    var s := TokenText(numPart) + t;
    var end := |TokenOpen| + |numPart|;
    TokenEndOfText(numPart, t);
    assert s[|TokenOpen|..end] == numPart;
  }

  /** The digits of a token for k read back as k: the restorer writes placeholder k's text, or the token if k is not in the list. */
  lemma ReplacementOfDecimal<F>(k: nat, phs: seq<PlaceholderInfo<F>>)
    requires k <= MaxInt
    ensures Replacement(Decimal(k), phs) == ItemExpansion(Ref(k), phs)
  {
    ParseIntOfDecimal(k);
  }

  /** The token of placeholder k at the head of the text is replaced as ItemExpansion says. */
  lemma RestoreTokenHead<F>(k: nat, t: string, phs: seq<PlaceholderInfo<F>>)
    requires k <= MaxInt
    ensures Restore(Token(k) + t, phs) == ItemExpansion(Ref(k), phs) + Restore(t, phs)
  {
    DecimalSpec(k);
    assert TokenClose !in Decimal(k) by {
      forall j | 0 <= j < |Decimal(k)| ensures Decimal(k)[j] != TokenClose {
        assert IsDigit(Decimal(k)[j]);
      }
    }
    assert Token(k) == TokenText(Decimal(k));
    RestoreTokenTextHead(Decimal(k), t, phs);
    ReplacementOfDecimal(k, phs);
  }

  /** No copied '«' and no token index beyond the int range. */
  ghost predicate Restorable(items: seq<Item>) {
    && (forall j :: 0 <= j < |items| && items[j].Char? ==> items[j].c != TokenOpen[0])
    && (forall j :: 0 <= j < |items| && items[j].Ref? ==> items[j].index <= MaxInt)
  }

  /**
   * Restoring a rendered masked text puts back the original text of every
   * placeholder that exists, provided no copied character is '«' (which
   * could start a false token) and every index fits in an int.
   */
  lemma {:induction false} RestoreRender<F>(items: seq<Item>, phs: seq<PlaceholderInfo<F>>)
    requires Restorable(items)
    ensures Restore(Render(items), phs) == Expand(items, phs)
  {
    if items != [] {
      var rest := Render(items[1..]);
      assert Restorable(items[1..]) by {
        forall j | 0 <= j < |items[1..]| ensures items[1..][j] == items[j + 1] { }
      }
      RestoreRender(items[1..], phs);
      match items[0]
      case Char(c) =>
        RestoreCharHead(c, rest, phs);
      case Ref(k) =>
        RestoreTokenHead(k, rest, phs);
    }
  }

  /** Every token in items carries an index listed by Refs. */
  lemma {:induction false} RefInRefs(items: seq<Item>, j: nat)
    requires j < |items| && items[j].Ref?
    ensures items[j].index in Refs(items)
  {
    if j > 0 {
      RefInRefs(items[1..], j - 1);
      assert items[1..][j - 1] == items[j];
    }
  }

  /**
   * The round trip of masking and restoring: when the paragraph contains no
   * '«' and the placeholder list fits in a Java list (at most 2^31 - 1
   * entries), restoring the masked text with its placeholders gives back
   * the concatenated run texts exactly.
   */
  lemma MaskRoundTrip<F>(runs: seq<RunInfo<F>>)
    requires TokenOpen[0] !in ConcatTexts(runs)
    requires |Mask(runs).1| <= MaxInt
    ensures Restore(Mask(runs).0, Mask(runs).1) == ConcatTexts(runs)
  {
    var m := MaskRuns(runs, 0);
    var text := ConcatTexts(runs);
    MaskRunsShape(runs, 0, []);
    assert [] + m.placeholders == m.placeholders;
    NumberedBelow(m.items, 0, |m.placeholders|);
    forall j | 0 <= j < |m.items| && m.items[j].Ref?
      ensures m.items[j].index <= MaxInt
    {
      RefInRefs(m.items, j);
    }
    assert Restorable(m.items);
    RestoreRender(m.items, m.placeholders);
  }

  /** A plain run that already holds the text «SUPSUB_0», then a superscript "2". */
  function OpenerInText<F>(fmt: F): seq<RunInfo<F>> {
    [RunInfo(Token(0), false, false, fmt), RunInfo("2", true, false, fmt)]
  }

  /** A text without sup/sub characters is copied by the masker character by character, with no placeholder. */
  lemma {:induction false} MaskPlainText<F>(text: string, next: nat, fmt: F)
    requires forall j :: 0 <= j < |text| ==> IsPlain(text[j])
    ensures MaskText(text, next, fmt).placeholders == []
    ensures Render(MaskText(text, next, fmt).items) == text
    decreases |text|
  {
    if text != [] {
      MaskPlainText(text[1..], next, fmt);
      var rest := MaskText(text[1..], next, fmt);
      var items := [Char(text[0])] + rest.items;
      assert items[1..] == rest.items;
      assert Render(items) == [text[0]] + Render(rest.items);
    }
  }

  /** A token holds no sup/sub character. */
  lemma TokenPlain(k: nat)
    ensures forall j :: 0 <= j < |Token(k)| ==> IsPlain(Token(k)[j])
  {
    var digits := Decimal(k);
    DecimalSpec(k);
    forall j | 0 <= j < |Token(k)|
      ensures IsPlain(Token(k)[j])
    {
      if j < |TokenOpen| {
        assert Token(k)[j] == TokenOpen[j];
      } else if j < |TokenOpen| + |digits| {
        assert Token(k)[j] == digits[j - |TokenOpen|];
      }
    }
  }

  /** That paragraph masks to «SUPSUB_0»«SUPSUB_0», with the "2" as placeholder 0. */
  lemma MaskOpenerInText<F>(fmt: F)
    ensures Mask(OpenerInText(fmt)) == (Token(0) + Token(0), [PlaceholderInfo("2", true, false, fmt)])
  {
    var runs := OpenerInText(fmt);
    var first := MaskRun(runs[0], 0);
    TokenPlain(0);
    MaskPlainText(Token(0), 0, fmt);
    MaskRunsUnfold(runs, 0);
    assert runs[1..] == [runs[1]];
    MaskRunsSingle(runs[1], 0);
    var m := MaskRuns(runs, 0);
    assert m.items == first.items + [Ref(0)];
    assert m.placeholders == [PlaceholderInfo("2", true, false, fmt)];
    RenderAppend(first.items, [Ref(0)]);
    RenderRef(0);
    assert Render(m.items) == Token(0) + Token(0);
  }

  /** Both tokens of «SUPSUB_0»«SUPSUB_0» are restored to placeholder 0's text. */
  lemma RestoreTwoTokens<F>(ph: PlaceholderInfo<F>)
    ensures Restore(Token(0) + Token(0), [ph]) == ph.originalText + ph.originalText
  {
    RestoreTokenHead(0, Token(0), [ph]);
    assert Token(0) + [] == Token(0);
    RestoreTokenHead(0, [], [ph]);
    assert RestoreFrom([], 0, [ph]) == [];
  }

  /**
   * The round trip needs the '«' condition: the paragraph OpenerInText,
   * whose text is «SUPSUB_0»2, restores to "22".
   */
  lemma MaskRoundTripNeedsNoOpener<F>(fmt: F)
    ensures Restore(Mask(OpenerInText(fmt)).0, Mask(OpenerInText(fmt)).1) == "22"
    ensures ConcatTexts(OpenerInText(fmt)) == Token(0) + "2"
  {
    MaskOpenerInText(fmt);
    RestoreTwoTokens(PlaceholderInfo("2", true, false, fmt));
    var runs := OpenerInText(fmt);
    assert "2" + "2" == "22";
    assert runs[1..][1..] == [];
    assert ConcatTexts(runs[1..]) == "2" + ConcatTexts(runs[1..][1..]);
    assert ConcatTexts(runs) == Token(0) + ConcatTexts(runs[1..]);
  }

  /** One pass of the loop with an empty placeholder list writes exactly the text it passes over. */
  lemma StepCopies<F>(s: string, i: nat, phs: seq<PlaceholderInfo<F>>)
    requires i < |s| && |phs| == 0
    ensures RestoreStep(s, i, phs).0 == s[i..RestoreStep(s, i, phs).1]
  {
    var e := TokenEnd(s, i);
    if e.Some? {
      var end := e.value;
      assert s[i..i + |TokenOpen|] == TokenOpen by {
        forall j | 0 <= j < |TokenOpen| ensures s[i..i + |TokenOpen|][j] == TokenOpen[j] {
          assert s[i + j] == TokenOpen[j];
        }
      }
      assert s[i..end + 1] == s[i..i + |TokenOpen|] + s[i + |TokenOpen|..end] + [s[end]];
    }
  }

  /** With an empty placeholder list every token is out of range: restoring changes nothing. */
  lemma {:induction false} RestoreFromWithoutPlaceholders<F>(s: string, i: nat, phs: seq<PlaceholderInfo<F>>)
    requires i <= |s| && |phs| == 0
    ensures RestoreFrom(s, i, phs) == s[i..]
    decreases |s| - i
  {
    if i < |s| {
      RestoreFromWithoutPlaceholders(s, RestoreStep(s, i, phs).1, phs);
      StepCopies(s, i, phs);
      CopyStep(s, i, phs);
    }
  }

  /** A loop pass that writes exactly what it passes over, followed by a restored rest equal to its text, leaves s[i..] as it is. */
  lemma CopyStep<F>(s: string, i: nat, phs: seq<PlaceholderInfo<F>>)
    requires i < |s|
    requires RestoreStep(s, i, phs).0 == s[i..RestoreStep(s, i, phs).1]
    requires RestoreFrom(s, RestoreStep(s, i, phs).1, phs) == s[RestoreStep(s, i, phs).1..]
    ensures RestoreFrom(s, i, phs) == s[i..]
  {
    var step := RestoreStep(s, i, phs);
    RestoreFromUnfold(s, i, phs);
    SliceSplit(s, i, step.1);
    calc {
      RestoreFrom(s, i, phs);
      step.0 + RestoreFrom(s, step.1, phs);
      s[i..step.1] + s[step.1..];
      s[i..];
    }
  }

  lemma RestoreWithoutPlaceholders<F>(s: string, phs: seq<PlaceholderInfo<F>>)
    requires |phs| == 0
    ensures Restore(s, phs) == s
  {
    RestoreFromWithoutPlaceholders(s, 0, phs);
  }

  /** Without a "»" from position i on there is no complete token: the rest of the text is copied. */
  lemma {:induction false} RestoreFromWithoutCloser<F>(s: string, i: nat, phs: seq<PlaceholderInfo<F>>)
    requires i <= |s|
    requires forall j :: i <= j < |s| ==> s[j] != TokenClose
    ensures RestoreFrom(s, i, phs) == s[i..]
    decreases |s| - i
  {
    if i < |s| {
      assert IndexOfFrom(s, TokenClose, i).None?;
      assert RestoreStep(s, i, phs) == ([s[i]], i + 1);
      RestoreFromWithoutCloser(s, i + 1, phs);
      CopyStep(s, i, phs);
    }
  }

  /** An unterminated opener, or any text without "»", comes back unchanged. */
  lemma RestoreWithoutCloser<F>(s: string, phs: seq<PlaceholderInfo<F>>)
    requires TokenClose !in s
    ensures Restore(s, phs) == s
  {
    RestoreFromWithoutCloser(s, 0, phs);
  }

  /** parseInt accepts leading zeros: «SUPSUB_00» is placeholder 0. */
  lemma RestoreZeroPadded<F>(ph: PlaceholderInfo<F>)
    ensures Restore(TokenText("00"), [ph]) == ph.originalText
  {
    assert Decimal(0) == "0";
    ParseIntAcceptsZerosAndPlus(0);
    assert "0" + "0" == "00";
    assert TokenText("00") + [] == TokenText("00");
    RestoreTokenTextHead("00", [], [ph]);
    assert RestoreFrom([], 0, [ph]) == [];
  }

  /** A negative index parses but is out of range: «SUPSUB_-1» is left as it is. */
  lemma RestoreNegativeIndex<F>(ph: PlaceholderInfo<F>)
    ensures Restore(TokenText("-1"), [ph]) == TokenText("-1")
  {
    assert Decimal(1) == "1";
    ParseIntNegative(1);
    assert "-" + "1" == "-1";
    assert TokenText("-1") + [] == TokenText("-1");
    RestoreTokenTextHead("-1", [], [ph]);
    assert RestoreFrom([], 0, [ph]) == [];
  }

  /**
   * An opener whose "»" is missing takes the next token's "»" as its own:
   * in «SUPSUB_«SUPSUB_0» the body "«SUPSUB_0" does not parse, so the whole
   * text is kept and the valid token inside it is not restored.
   */
  lemma RestoreOpenerSwallowsToken<F>(ph: PlaceholderInfo<F>)
    ensures Restore(TokenOpen + Token(0), [ph]) == TokenOpen + Token(0)
  {
    var numPart := TokenOpen + Decimal(0);
    assert Decimal(0) == "0";
    assert TokenOpen + Token(0) == TokenText(numPart) + [];
    assert TokenClose !in numPart;
    ParseDigitsSpec(numPart);
    assert !IsDigit(numPart[0]);
    assert ParseInt(numPart) == None;
    RestoreTokenTextHead(numPart, [], [ph]);
    assert RestoreFrom([], 0, [ph]) == [];
  }
}
