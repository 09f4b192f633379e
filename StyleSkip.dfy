/**
 * isParagraphStyleToSkip: a paragraph is left alone when its style id, or
 * the character style of one of its runs, names one of the styles of
 * STYLES_TO_SKIP (references, headings, author lines, ...).
 *
 * The Java code upper-cases the style name and looks the result up in a
 * set that also holds lower- and mixed-case names ("cit", "Front matter").
 * An upper-cased name never equals such an entry, so as written those
 * sixteen styles are never skipped.  ListedAsWritten is that lookup, and
 * the paragraph test SkipsParagraph uses it, as the Java code does;
 * AsWrittenMissesLowercaseEntries shows what it misses.  ListedIgnoringCase
 * is the case-insensitive lookup the set was evidently meant for, and
 * SkipsParagraphIgnoringCase the paragraph test built on it.
 */
module StyleSkip {
  import opened Wrappers
  import opened Docx

  /**
   * STYLES_TO_SKIP, entry for entry and in the order of the source.  The
   * Java set is a Set.of; its entries are distinct, so a list of them
   * with membership looked up entry by entry has the same meaning (it is
   * written as two displays only to keep each small for the verifier).
   */
  const StylesToSkip: seq<string> := [
    "CL", "AU", "EH", "TY", "DOI", "LRH", "RRH", "AF", "AT", "AS", "ABKWH", "ABKW", "H1", "cit", "AQ", "H2",
    "AN", "author", "adate", "atl", "stl", "vol", "iss", "first-page", "last-page", "REF"
  ] + [
    "org", "btl", "city", "pub", "aulabel", "Hyperlink", "CP", "H3", "DR", "Front matter", "OQ", "QS", "H4",
    "H5", "EX", "DI", "PO", "EQ", "EN", "NNUM", "CPB", "TCH", "TT", "TNL", "TBL", "CPSO"
  ]

  predicate IsLowerAscii(c: char) {
    'a' <= c <= 'z'
  }

  /** Character.toUpperCase on the ASCII letters; every other character is kept. */
  function ToUpperChar(c: char): (u: char)
    ensures !IsLowerAscii(u)
    ensures !IsLowerAscii(c) ==> u == c
  {
    if IsLowerAscii(c) then (c as int - 32) as char else c
  }

  /** String.toUpperCase, character by character. */
  function ToUpper(s: string): (u: string)
    ensures |u| == |s|
    ensures forall i :: 0 <= i < |s| ==> u[i] == ToUpperChar(s[i])
  {
    seq(|s|, i requires 0 <= i < |s| => ToUpperChar(s[i]))
  }

  /** Upper-casing twice is upper-casing once. */
  lemma ToUpperIdempotent(s: string)
    ensures ToUpper(ToUpper(s)) == ToUpper(s)
  {
    var u := ToUpper(s);
    assert forall i :: 0 <= i < |u| ==> ToUpperChar(u[i]) == u[i];
  }

  /** Set.contains: u is one of the entries. */
  predicate Member(u: string, entries: seq<string>) {
    entries != [] && (entries[0] == u || Member(u, entries[1..]))
  }

  lemma {:induction false} MemberIsIn(u: string, entries: seq<string>)
    ensures Member(u, entries) <==> u in entries
  {
    if entries != [] {
      MemberIsIn(u, entries[1..]);
      assert entries == [entries[0]] + entries[1..];
    }
  }

  /** The Java lookup: STYLES_TO_SKIP.contains(style.toUpperCase()). */
  predicate ListedAsWritten(style: string) {
    Member(ToUpper(style), StylesToSkip)
  }

  /** style equals one of the entries up to case. */
  predicate MemberIgnoringCase(style: string, entries: seq<string>) {
    entries != [] && (ToUpper(entries[0]) == ToUpper(style) || MemberIgnoringCase(style, entries[1..]))
  }

  lemma {:induction false} MemberIgnoringCaseIsIn(style: string, entries: seq<string>)
    ensures MemberIgnoringCase(style, entries) <==> exists e :: e in entries && ToUpper(e) == ToUpper(style)
  {
    if entries != [] {
      MemberIgnoringCaseIsIn(style, entries[1..]);
      assert entries == [entries[0]] + entries[1..];
    }
  }

  /** The case-insensitive lookup the set is evidently meant for. */
  predicate ListedIgnoringCase(style: string) {
    MemberIgnoringCase(style, StylesToSkip)
  }

  /** ListedIgnoringCase finds a style exactly when it equals an entry up to case. */
  lemma ListedIgnoresCase(style: string)
    ensures ListedIgnoringCase(style) <==> exists e :: e in StylesToSkip && ToUpper(e) == ToUpper(style)
  {
    MemberIgnoringCaseIsIn(style, StylesToSkip);
  }

  /** Every entry is listed, and so is its upper-cased spelling. */
  lemma EveryEntryListed(e: string)
    requires e in StylesToSkip
    ensures ListedIgnoringCase(e) && ListedIgnoringCase(ToUpper(e))
  {
    ToUpperIdempotent(e);
    ListedIgnoresCase(e);
    ListedIgnoresCase(ToUpper(e));
  }

  /** The case-insensitive lookup finds every style the Java lookup finds. */
  lemma ListedExtendsAsWritten(style: string)
    requires ListedAsWritten(style)
    ensures ListedIgnoringCase(style)
  {
    MemberIsIn(ToUpper(style), StylesToSkip);
    ToUpperIdempotent(style);
    ListedIgnoresCase(style);
  }

  /** An entry with a lower-case letter is never found by the Java lookup, whatever the style name. */
  lemma AsWrittenMissesLowercaseEntries(style: string, e: string, i: nat)
    requires i < |e| && IsLowerAscii(e[i])
    ensures ToUpper(style) != e
  {
    var u := ToUpper(style);
    if |u| == |e| {
      assert !IsLowerAscii(u[i]);
    }
  }

  /** A paragraph styled "Front matter" is not skipped as written, and is with the case-insensitive lookup. */
  lemma FrontMatterStyleMissed()
    ensures !ListedAsWritten("Front matter") && ListedIgnoringCase("Front matter")
  {
    var e := "Front matter";
    FrontMatterUpperCased();
    FrontMatterUpperCasedNotListed();
    MemberIsIn(ToUpper(e), StylesToSkip);
    EveryEntryListed(e);
  }

  lemma FrontMatterUpperCased()
    ensures ToUpper("Front matter") == "FRONT MATTER"
  {
    var u := ToUpper("Front matter");
    assert u[0] == 'F' && u[1] == 'R' && u[2] == 'O' && u[3] == 'N' && u[4] == 'T' && u[5] == ' ';
    assert u[6] == 'M' && u[7] == 'A' && u[8] == 'T' && u[9] == 'T' && u[10] == 'E' && u[11] == 'R';
  }

  lemma FrontMatterUpperCasedNotListed()
    ensures "FRONT MATTER" !in StylesToSkip
  {
  }

  /** The character style of a run, when the run has properties that set one. */
  function RunStyle(run: Run): (style: Option<string>)
    ensures style.Some? ==> run.props.Some?
  {
    match run.props
    case None => None
    case Some(p) => p.rStyle
  }

  /** The run's character style is found by the Java lookup. */
  predicate RunListed(run: Run) {
    RunStyle(run).Some? && ListedAsWritten(RunStyle(run).value)
  }

  /** Some run's character style is listed. */
  predicate AnyRunListed(runs: seq<Run>) {
    runs != [] && (AnyRunListed(runs[..|runs| - 1]) || RunListed(runs[|runs| - 1]))
  }

  /** AnyRunListed holds exactly when some run is listed. */
  lemma {:induction false} AnyRunListedExists(runs: seq<Run>)
    ensures AnyRunListed(runs) <==> exists k :: 0 <= k < |runs| && RunListed(runs[k])
  {
    if runs != [] {
      var init := runs[..|runs| - 1];
      AnyRunListedExists(init);
      if exists k :: 0 <= k < |init| && RunListed(init[k]) {
        var k :| 0 <= k < |init| && RunListed(init[k]);
        assert runs[k] == init[k];
      }
      if exists k :: 0 <= k < |runs| && RunListed(runs[k]) {
        var k :| 0 <= k < |runs| && RunListed(runs[k]);
        if k < |init| {
          assert init[k] == runs[k];
        }
      }
    }
  }

  /** The paragraph is skipped: the Java lookup finds its style id, or the character style of one of its runs. */
  predicate SkipsParagraph(styleId: Option<string>, runs: seq<Run>) {
    (styleId.Some? && ListedAsWritten(styleId.value)) || AnyRunListed(runs)
  }

  /** isParagraphStyleToSkip: the style id first, then the runs in order, stopping at the first listed one. */
  method IsParagraphStyleToSkip(paragraph: Paragraph) returns (skip: bool)
    ensures skip <==> SkipsParagraph(paragraph.styleId, paragraph.runs)
  {
    var styleId := paragraph.styleId;
    if styleId.Some? && ListedAsWritten(styleId.value) {
      return true;
    }
    var runs := paragraph.runs;
    for k := 0 to |runs|
      invariant !AnyRunListed(runs[..k])
    {
      assert runs[..k + 1][..k] == runs[..k];
      var props := runs[k].props;
      if props.Some? {
        var rStyle := props.value.rStyle;
        if rStyle.Some? && ListedAsWritten(rStyle.value) {
          assert RunListed(runs[..k + 1][k]);
          AnyRunListedPrefix(runs, k + 1);
          return true;
        }
      }
    }
    assert runs[..|runs|] == runs;
    return false;
  }

  /** A listed prefix makes the whole run list listed. */
  lemma {:induction false} AnyRunListedPrefix(runs: seq<Run>, n: nat)
    requires n <= |runs| && AnyRunListed(runs[..n])
    ensures AnyRunListed(runs)
    decreases |runs| - n
  {
    if n < |runs| {
      assert runs[..n + 1][..n] == runs[..n];
      AnyRunListedPrefix(runs, n + 1);
    } else {
      assert runs[..n] == runs;
    }
  }

  /** A paragraph with no style id and no run styles is never skipped. */
  lemma UnstyledNotSkipped(runs: seq<Run>)
    requires forall k :: 0 <= k < |runs| ==> RunStyle(runs[k]).None?
    ensures !SkipsParagraph(None, runs)
  {
    AnyRunListedExists(runs);
  }

  /** The paragraph test with the case-insensitive lookup, for the style id and for every run style. */
  predicate SkipsParagraphIgnoringCase(styleId: Option<string>, runs: seq<Run>) {
    (styleId.Some? && ListedIgnoringCase(styleId.value))
    || exists k :: 0 <= k < |runs| && RunStyle(runs[k]).Some? && ListedIgnoringCase(RunStyle(runs[k]).value)
  }

  /** Every paragraph the Java test skips is also skipped by the case-insensitive test. */
  lemma SkipsAsWrittenThenIgnoringCase(styleId: Option<string>, runs: seq<Run>)
    requires SkipsParagraph(styleId, runs)
    ensures SkipsParagraphIgnoringCase(styleId, runs)
  {
    if styleId.Some? && ListedAsWritten(styleId.value) {
      ListedExtendsAsWritten(styleId.value);
    } else {
      AnyRunListedExists(runs);
      var k :| 0 <= k < |runs| && RunListed(runs[k]);
      ListedExtendsAsWritten(RunStyle(runs[k]).value);
    }
  }

  /**
   * A paragraph styled "Front matter" whose runs carry no character style is
   * processed by the Java test and skipped only by the case-insensitive one.
   */
  lemma FrontMatterParagraphSkippedOnlyIgnoringCase(runs: seq<Run>)
    requires forall k :: 0 <= k < |runs| ==> RunStyle(runs[k]).None?
    ensures !SkipsParagraph(Some("Front matter"), runs)
    ensures SkipsParagraphIgnoringCase(Some("Front matter"), runs)
  {
    FrontMatterStyleMissed();
    AnyRunListedExists(runs);
  }
}
