/**
 * The per-paragraph pass of readAndProcessDocxFile and the rebuild of a
 * corrected paragraph.
 *
 * For every paragraph that is not skipped by its style: markers are added
 * after the superscript/subscript runs, the run texts are joined, and a
 * paragraph whose text is empty or blank is left as it is.  Otherwise the
 * text is masked, sent to the grammar service, and the reply restored; when
 * the restored reply differs from the original text, the paragraph's runs
 * are replaced by one run per segment of the word diff, deleted words
 * struck through in dark grey, added words in green.
 *
 * The grammar service is a parameter: given the masked text it answers
 * with the corrected text, or with None where the Java call throws (an
 * HTTP status other than 200), which abandons the whole document.
 */
module Pipeline {
  import opened Wrappers
  import opened CharClass
  import opened Strings
  import opened JavaInt
  import opened Docx
  import opened Markers
  import opened StyleSkip
  import opened Masking
  import opened Restoring
  import opened Tokenizer
  import opened WordDiff
  import opened Segments

  /** RunFormatting: the copied run properties, None (Java's null rPr) when the run had none. */
  type Formatting = Option<RunProps>

  /** new RunFormatting(): no properties to copy. */
  const NoFormatting: Formatting := None

  // ---------------------------------------------------------------------
  // Reading the runs
  // ---------------------------------------------------------------------

  /** The RunInfo extractRunInfos records for one run. */
  function RunInfoOf(run: Run): RunInfo<Formatting> {
    RunInfo(TextOf(run), IsSuperscriptRun(run), IsSubscriptRun(run), run.props)
  }

  /** extractRunInfos: one RunInfo per run, in order. */
  method ExtractRunInfos(paragraph: Paragraph) returns (runInfos: seq<RunInfo<Formatting>>)
    ensures |runInfos| == |paragraph.runs|
    ensures forall k :: 0 <= k < |runInfos| ==> runInfos[k] == RunInfoOf(paragraph.runs[k])
  {
    runInfos := [];
    var runs := paragraph.runs;
    for k := 0 to |runs|
      invariant |runInfos| == k
      invariant forall j :: 0 <= j < k ==> runInfos[j] == RunInfoOf(runs[j])
    {
      runInfos := runInfos + [RunInfoOf(runs[k])];
    }
  }

  /** The run infos as a function of the runs. */
  function RunInfos(runs: seq<Run>): (infos: seq<RunInfo<Formatting>>)
    ensures |infos| == |runs|
    ensures forall k :: 0 <= k < |runs| ==> infos[k] == RunInfoOf(runs[k])
  {
    seq(|runs|, k requires 0 <= k < |runs| => RunInfoOf(runs[k]))
  }

  /** The texts of the runs (null read as empty), joined. */
  function ParagraphText(runs: seq<Run>): string {
    if runs == [] then [] else TextOf(runs[0]) + ParagraphText(runs[1..])
  }

  /** The joined text of the run infos is the paragraph's text. */
  lemma {:induction false} RunInfosText(runs: seq<Run>)
    ensures ConcatTexts(RunInfos(runs)) == ParagraphText(runs)
  {
    if runs != [] {
      RunInfosText(runs[1..]);
      assert RunInfos(runs)[1..] == RunInfos(runs[1..]);
    }
  }

  /** The StringBuilder loop that joins the run texts. */
  method JoinTexts(runInfos: seq<RunInfo<Formatting>>) returns (fullText: string)
    ensures fullText == ConcatTexts(runInfos)
  {
    fullText := [];
    for k := 0 to |runInfos|
      invariant fullText == ConcatTexts(runInfos[..k])
    {
      assert runInfos[..k + 1] == runInfos[..k] + [runInfos[k]];
      ConcatTextsSnoc(runInfos[..k], runInfos[k]);
      fullText := fullText + runInfos[k].text;
    }
    assert runInfos[..|runInfos|] == runInfos;
  }

  // ---------------------------------------------------------------------
  // String.trim().isEmpty()
  // ---------------------------------------------------------------------

  /** The number of leading characters at or below U+0020. */
  function Lead(s: string): (n: nat)
    ensures n <= |s|
    ensures forall i :: 0 <= i < n ==> s[i] <= ' '
    ensures n < |s| ==> s[n] > ' '
  {
    if s != [] && s[0] <= ' ' then 1 + Lead(s[1..]) else 0
  }

  /** The length of s without its trailing characters at or below U+0020. */
  function Tail(s: string): (n: nat)
    ensures n <= |s|
    ensures forall i :: n <= i < |s| ==> s[i] <= ' '
    ensures n > 0 ==> s[n - 1] > ' '
  {
    if s != [] && s[|s| - 1] <= ' ' then Tail(s[..|s| - 1]) else |s|
  }

  /** String.trim: leading and trailing characters at or below U+0020 removed. */
  function Trim(s: string): string {
    var st := Lead(s);
    var len := Tail(s);
    if st < len then s[st..len] else []
  }

  /** The trimmed text is empty exactly when every character is at or below U+0020. */
  lemma TrimEmptyIffBlank(s: string)
    ensures Trim(s) == [] <==> forall i :: 0 <= i < |s| ==> s[i] <= ' '
  {
    var st, len := Lead(s), Tail(s);
    if st < len {
      assert s[st] > ' ';
    }
  }

  // ---------------------------------------------------------------------
  // The new runs of a rebuilt paragraph
  // ---------------------------------------------------------------------

  /** run.setText(text, 0). */
  function SetText(run: Run, text: string): Run {
    run.(text := Some(text))
  }

  /** run.setSubscript(align): creates the properties if needed. */
  function SetVertAlign(run: Run, align: VertAlign): Run {
    run.(props := Some(PropsOrNew(run.props).(vertAlign := align)))
  }

  /**
   * RunFormatting.applyTo: the copied properties replace the run's, then a
   * deletion is struck through in 2F4F4F and an addition coloured 2CFF05.
   */
  function ApplyTo(formatting: Formatting, run: Run, forceGreen: bool, forceRedStrikethrough: bool): (styled: Run)
    ensures styled.text == run.text
    ensures forceRedStrikethrough ==>
      styled.props == Some(PropsOrNew(if formatting.Some? then formatting else run.props).(strike := true, color := Some(DeletedColor)))
    ensures !forceRedStrikethrough && forceGreen ==>
      styled.props == Some(PropsOrNew(if formatting.Some? then formatting else run.props).(color := Some(AddedColor)))
    ensures !forceRedStrikethrough && !forceGreen ==> styled.props == (if formatting.Some? then formatting else run.props)
  {
    var copied := if formatting.Some? then run.(props := formatting) else run;
    if forceRedStrikethrough then copied.(props := Some(PropsOrNew(copied.props).(strike := true, color := Some(DeletedColor))))
    else if forceGreen then copied.(props := Some(PropsOrNew(copied.props).(color := Some(AddedColor))))
    else copied
  }

  /** The run createRun makes for one segment: its text, its formatting and colour, its vertical alignment. */
  function RunFor(segment: TextSegment<Formatting>): Run {
    var run := SetText(Run(None, None), segment.text);
    var styled := ApplyTo(segment.formatting, run, segment.isChanged && !segment.isDeleted, segment.isDeleted);
    if segment.isSuperscript then SetVertAlign(styled, Superscript)
    else if segment.isSubscript then SetVertAlign(styled, Subscript)
    else styled
  }

  /** What a segment's run looks like: its text, struck and grey when deleted, green when added. */
  lemma RunForShows(segment: TextSegment<Formatting>)
    ensures var run := RunFor(segment);
      && run.text == Some(segment.text)
      && (segment.isDeleted ==> run.props.Some? && run.props.value.strike && run.props.value.color == Some(DeletedColor))
      && (segment.isChanged && !segment.isDeleted ==> run.props.Some? && run.props.value.color == Some(AddedColor))
      && (segment.isSuperscript ==> run.props.Some? && run.props.value.vertAlign == Superscript)
      && (!segment.isSuperscript && segment.isSubscript ==> run.props.Some? && run.props.value.vertAlign == Subscript)
      && (!segment.isChanged && !segment.isDeleted && !segment.isSuperscript && !segment.isSubscript ==> run.props == segment.formatting)
  {
  }

  /** One run per segment, in order. */
  function RunsFor(segments: seq<TextSegment<Formatting>>): (runs: seq<Run>)
    ensures |runs| == |segments|
    ensures forall k :: 0 <= k < |segments| ==> runs[k] == RunFor(segments[k])
  {
    seq(|segments|, k requires 0 <= k < |segments| => RunFor(segments[k]))
  }

  /** The segments of a rebuilt paragraph. */
  function RebuiltSegments(original: string, corrected: string, runInfos: seq<RunInfo<Formatting>>): seq<TextSegment<Formatting>> {
    Process(Label(Diff(Split(original), Split(corrected)), runInfos, NoFormatting))
  }

  /**
   * rebuildParagraphWithChanges: every run removed from the last to the
   * first, then one new run per segment of compareTexts.  The Java method
   * also picks a default formatting for segments without one; every
   * segment has one, so that branch is never taken and is not modelled.
   */
  method RebuildParagraphWithChanges(paragraph: Paragraph, originalText: string, correctedText: string,
                                     originalRuns: seq<RunInfo<Formatting>>)
    modifies paragraph
    ensures paragraph.runs == RunsFor(RebuiltSegments(originalText, correctedText, originalRuns))
  {
    var i := |paragraph.runs| - 1;
    ghost var before := paragraph.runs;
    while i >= 0
      invariant -1 <= i < |before|
      invariant paragraph.runs == before[..i + 1]
    {
      paragraph.RemoveRun(i);
      i := i - 1;
    }
    var segments := CompareTexts(originalText, correctedText, originalRuns, NoFormatting);
    for k := 0 to |segments|
      invariant paragraph.runs == RunsFor(segments[..k])
    {
      var run := NewRun(segments[k]);
      paragraph.CreateRun(run);
      RunsForSnoc(segments, k);
    }
    assert segments[..|segments|] == segments;
  }

  /** The body of the segment loop: createRun, setText, applyTo, setSubscript. */
  method NewRun(segment: TextSegment<Formatting>) returns (run: Run)
    ensures run == RunFor(segment)
  {
    run := SetText(Run(None, None), segment.text);
    run := ApplyTo(segment.formatting, run, segment.isChanged && !segment.isDeleted, segment.isDeleted);
    if segment.isSuperscript {
      run := SetVertAlign(run, Superscript);
    } else if segment.isSubscript {
      run := SetVertAlign(run, Subscript);
    }
  }

  lemma RunsForSnoc(segments: seq<TextSegment<Formatting>>, k: nat)
    requires k < |segments|
    ensures RunsFor(segments[..k + 1]) == RunsFor(segments[..k]) + [RunFor(segments[k])]
  {
    var a, b := RunsFor(segments[..k + 1]), RunsFor(segments[..k]) + [RunFor(segments[k])];
    assert |a| == |b|;
    forall j | 0 <= j < |a| ensures a[j] == b[j] {
      assert segments[..k + 1][j] == if j < k then segments[..k][j] else segments[k];
    }
  }

  // ---------------------------------------------------------------------
  // The decision for one paragraph
  // ---------------------------------------------------------------------

  /**
   * The runs of a paragraph that is not skipped, after its markers are in:
   * unchanged when there is no text, no visible text or no correction,
   * rebuilt otherwise; None when the grammar service fails.
   */
  function CheckMarked(marked: seq<Run>, service: string -> Option<string>): Option<seq<Run>> {
    var runInfos := RunInfos(marked);
    if runInfos == [] then Some(marked)
    else
      var originalText := ConcatTexts(runInfos);
      if Trim(originalText) == [] then Some(marked)
      else
        var masked := Mask(runInfos);
        match service(masked.0)
        case None => None
        case Some(reply) =>
          var correctedText := Restore(reply, masked.1);
          if originalText == correctedText then Some(marked)
          else Some(RunsFor(RebuiltSegments(originalText, correctedText, runInfos)))
  }

  /** The runs of a paragraph after the pass, or None when the grammar service fails. */
  function Outcome(styleId: Option<string>, runs: seq<Run>, service: string -> Option<string>): Option<seq<Run>> {
    if SkipsParagraph(styleId, runs) then Some(runs) else CheckMarked(WithMarkers(runs), service)
  }

  /**
   * The body of the paragraph loop of readAndProcessDocxFile.  ok is false
   * where the grammar service throws; the markers are in by then.
   */
  method ProcessParagraph(paragraph: Paragraph, service: string -> Option<string>) returns (ok: bool)
    modifies paragraph
    ensures ok <==> Outcome(paragraph.styleId, old(paragraph.runs), service).Some?
    ensures ok ==> paragraph.runs == Outcome(paragraph.styleId, old(paragraph.runs), service).value
    ensures !ok ==> paragraph.runs == WithMarkers(old(paragraph.runs))
  {
    var skip := IsParagraphStyleToSkip(paragraph);
    if skip {
      return true;
    }
    AddMarkersToSuperSubscripts(paragraph);
    ok := CheckParagraph(paragraph, service);
  }

  /** The part of the loop body after the markers are in. */
  method CheckParagraph(paragraph: Paragraph, service: string -> Option<string>) returns (ok: bool)
    modifies paragraph
    ensures ok <==> CheckMarked(old(paragraph.runs), service).Some?
    ensures ok ==> paragraph.runs == CheckMarked(old(paragraph.runs), service).value
    ensures !ok ==> paragraph.runs == old(paragraph.runs)
  {
    var runInfos := ExtractRunInfos(paragraph);
    assert runInfos == RunInfos(paragraph.runs);
    if |runInfos| == 0 {
      return true;
    }
    var originalText := JoinTexts(runInfos);
    if Trim(originalText) == [] {
      return true;
    }
    var maskedText, placeholders := MaskFromRunInfos(runInfos);
    var reply := service(maskedText);
    if reply.None? {
      return false;
    }
    var correctedText := RestorePlaceholders(reply.value, placeholders);
    if originalText != correctedText {
      RebuildParagraphWithChanges(paragraph, originalText, correctedText, runInfos);
    }
    return true;
  }

  /**
   * The paragraph loop of readAndProcessDocxFile: the paragraphs in order,
   * stopping at the first failure of the grammar service (the Java method
   * then throws and no corrected document is written).  ok holds exactly
   * when the service answers for every paragraph that reaches it; then
   * every paragraph ends as its Outcome.  Otherwise the loop stopped at
   * paragraph k: those before it end as their Outcome, k keeps its
   * markers, and those after it are untouched.
   */
  method ProcessParagraphs(paragraphs: seq<Paragraph>, service: string -> Option<string>) returns (ok: bool)
    requires forall i, j :: 0 <= i < j < |paragraphs| ==> paragraphs[i] != paragraphs[j]
    modifies set p | p in paragraphs
    ensures ok <==> forall i :: 0 <= i < |paragraphs| ==> Outcome(paragraphs[i].styleId, old(paragraphs[i].runs), service).Some?
    ensures ok ==> forall i :: 0 <= i < |paragraphs| ==>
      Outcome(paragraphs[i].styleId, old(paragraphs[i].runs), service) == Some(paragraphs[i].runs)
    ensures !ok ==> exists k :: 0 <= k < |paragraphs| && StoppedAt(paragraphs, k, service, old(RunsOf(paragraphs)))
  {
    ghost var before := RunsOf(paragraphs);
    ghost var expected := Outcomes(paragraphs, before, service);
    var stop;
    ok, stop := ProcessInOrder(paragraphs, service, expected);
    if !ok {
      assert StoppedAt(paragraphs, stop, service, before);
    }
  }

  /** The Outcome of each paragraph, for the given runs. */
  ghost function Outcomes(paragraphs: seq<Paragraph>, runs: seq<seq<Run>>, service: string -> Option<string>): (outs: seq<Option<seq<Run>>>)
    requires |runs| == |paragraphs|
    ensures |outs| == |paragraphs|
    ensures forall i :: 0 <= i < |paragraphs| ==> outs[i] == Outcome(paragraphs[i].styleId, runs[i], service)
  {
    seq(|paragraphs|, i requires 0 <= i < |paragraphs| => Outcome(paragraphs[i].styleId, runs[i], service))
  }

  /**
   * The loop itself, with the outcome of each paragraph named in advance:
   * either every paragraph ends as its expected outcome, or the loop stops
   * at the first paragraph whose outcome is None.
   */
  method ProcessInOrder(paragraphs: seq<Paragraph>, service: string -> Option<string>, ghost expected: seq<Option<seq<Run>>>)
    returns (ok: bool, stop: nat)
    requires forall i, j :: 0 <= i < j < |paragraphs| ==> paragraphs[i] != paragraphs[j]
    requires |expected| == |paragraphs|
    requires forall i {:trigger Outcome(paragraphs[i].styleId, paragraphs[i].runs, service)} :: 0 <= i < |paragraphs| ==>
      expected[i] == Outcome(paragraphs[i].styleId, paragraphs[i].runs, service)
    modifies set p | p in paragraphs
    ensures ok ==> forall i :: 0 <= i < |paragraphs| ==> expected[i] == Some(paragraphs[i].runs)
    ensures !ok ==> stop < |paragraphs| && expected[stop].None?
    ensures !ok ==> forall i :: 0 <= i < stop ==> expected[i] == Some(paragraphs[i].runs)
    ensures !ok ==> paragraphs[stop].runs == WithMarkers(old(paragraphs[stop].runs))
    ensures !ok ==> forall i :: stop < i < |paragraphs| ==> paragraphs[i].runs == old(paragraphs[i].runs)
  {
    stop := 0;
    for k := 0 to |paragraphs|
      invariant forall i :: 0 <= i < k ==> expected[i] == Some(paragraphs[i].runs)
      invariant forall i :: k <= i < |paragraphs| ==> paragraphs[i].runs == old(paragraphs[i].runs)
    {
      ok := ProcessExpecting(paragraphs[k], service, expected[k]);
      if !ok {
        stop := k;
        return;
      }
    }
    ok := true;
  }

  /** The runs of each paragraph, in order. */
  function RunsOf(paragraphs: seq<Paragraph>): (runs: seq<seq<Run>>)
    reads set p | p in paragraphs
    ensures |runs| == |paragraphs|
    ensures forall i :: 0 <= i < |paragraphs| ==> runs[i] == paragraphs[i].runs
  {
    seq(|paragraphs|, i reads set p | p in paragraphs requires 0 <= i < |paragraphs| => paragraphs[i].runs)
  }

  /**
   * The loop stopped at paragraph k, whose runs were before[k]: the service
   * failed for it, every earlier paragraph ends as its Outcome, k keeps its
   * markers, and every later paragraph is untouched.
   */
  ghost predicate StoppedAt(paragraphs: seq<Paragraph>, k: nat, service: string -> Option<string>, before: seq<seq<Run>>)
    requires k < |paragraphs| == |before|
    reads set p | p in paragraphs
  {
    && Outcome(paragraphs[k].styleId, before[k], service).None?
    && (forall i :: 0 <= i < k ==> Outcome(paragraphs[i].styleId, before[i], service) == Some(paragraphs[i].runs))
    && paragraphs[k].runs == WithMarkers(before[k])
    && (forall i :: k < i < |paragraphs| ==> paragraphs[i].runs == before[i])
  }

  /** ProcessParagraph, with the outcome it is to have named in advance. */
  method ProcessExpecting(paragraph: Paragraph, service: string -> Option<string>, ghost expected: Option<seq<Run>>)
    returns (ok: bool)
    requires expected == Outcome(paragraph.styleId, paragraph.runs, service)
    modifies paragraph
    ensures ok <==> expected.Some?
    ensures ok ==> expected == Some(paragraph.runs)
    ensures !ok ==> paragraph.runs == WithMarkers(old(paragraph.runs))
  {
    ok := ProcessParagraph(paragraph, service);
  }

  // ---------------------------------------------------------------------
  // Properties of the pass
  // ---------------------------------------------------------------------

  /** A paragraph whose style is listed keeps its runs: no markers, no service call. */
  lemma SkippedParagraphUnchanged(styleId: Option<string>, runs: seq<Run>, service: string -> Option<string>)
    requires styleId.Some? && ListedAsWritten(styleId.value)
    ensures Outcome(styleId, runs, service) == Some(runs)
  {
  }

  /**
   * As written, a paragraph styled "Front matter" with unstyled runs is not
   * skipped: it gains markers and goes to the service like any other.
   */
  lemma FrontMatterParagraphChecked(runs: seq<Run>, service: string -> Option<string>)
    requires forall k :: 0 <= k < |runs| ==> RunStyle(runs[k]).None?
    ensures Outcome(Some("Front matter"), runs, service) == CheckMarked(WithMarkers(runs), service)
  {
    FrontMatterParagraphSkippedOnlyIgnoringCase(runs);
  }

  /**
   * When the service answers with the masked text unchanged, the paragraph
   * keeps its text and formatting; it only gains its markers.  This needs
   * the paragraph text to be free of '«' (see MaskRoundTripNeedsNoOpener).
   */
  lemma EchoKeepsParagraph(styleId: Option<string>, runs: seq<Run>, service: string -> Option<string>)
    requires !SkipsParagraph(styleId, runs)
    requires var infos := RunInfos(WithMarkers(runs));
      && TokenOpen[0] !in ConcatTexts(infos)
      && |Mask(infos).1| <= MaxInt
      && service(Mask(infos).0) == Some(Mask(infos).0)
    ensures Outcome(styleId, runs, service) == Some(WithMarkers(runs))
  {
    var infos := RunInfos(WithMarkers(runs));
    if infos != [] && Trim(ConcatTexts(infos)) != [] {
      MaskRoundTrip(infos);
    }
  }

  /** No character of s is a superscript or subscript. */
  predicate NoSupSub(s: string) {
    forall i :: 0 <= i < |s| ==> !IsSuperscriptOrSubscript(s[i])
  }

  /**
   * A rebuilt paragraph reads as the corrected text when the struck-through
   * runs are skipped, and as the original text when the green ones are,
   * provided neither text holds a superscript/subscript character (see
   * DeletedSuperscriptShownUnchanged for what happens otherwise).
   */
  lemma RebuiltReadsBoth(original: string, corrected: string, runInfos: seq<RunInfo<Formatting>>)
    requires NoSupSub(original) && NoSupSub(corrected)
    ensures Shown(RebuiltSegments(original, corrected, runInfos)) == corrected
    ensures Former(RebuiltSegments(original, corrected, runInfos)) == original
  {
    var ds := Diff(Split(original), Split(corrected));
    var segs := Label(ds, runInfos, NoFormatting);
    LabelledTexts(original, corrected, runInfos, NoFormatting);
    DiffIsScript(Split(original), Split(corrected));
    SplitSpells(original);
    SplitSpells(corrected);
    LabelTextsPlain(ds, runInfos);
    ProcessKeepsReadings(segs);
  }

  /** Every labelled segment's text comes from one of the two texts. */
  lemma {:induction false} LabelTextsPlain(ds: seq<DiffResult>, runInfos: seq<RunInfo<Formatting>>)
    requires NoSupSub(Concat(Before(ds))) && NoSupSub(Concat(After(ds)))
    ensures forall k :: 0 <= k < |ds| ==> NoSupSub(Label(ds, runInfos, NoFormatting)[k].text)
  {
    if ds != [] {
      var init, e := ds[..|ds| - 1], ds[|ds| - 1];
      assert ds == init + [e];
      Snoc(init, e);
      if e.kind != Added {
        ConcatSnoc(Before(init), e.text);
        NoSupSubSplit(Concat(Before(init)), e.text);
      } else {
        assert Before(ds) == Before(init);
      }
      if e.kind != Removed {
        ConcatSnoc(After(init), e.text);
        NoSupSubSplit(Concat(After(init)), e.text);
      } else {
        assert After(ds) == After(init);
      }
      LabelTextsPlain(init, runInfos);
      forall k | 0 <= k < |ds|
        ensures NoSupSub(Label(ds, runInfos, NoFormatting)[k].text)
      {
        if k < |init| {
          assert Label(ds, runInfos, NoFormatting)[k] == Label(init, runInfos, NoFormatting)[k];
        }
      }
    }
  }

  lemma NoSupSubSplit(a: string, b: string)
    requires NoSupSub(a + b)
    ensures NoSupSub(a) && NoSupSub(b)
  {
    assert forall i :: 0 <= i < |a| ==> a[i] == (a + b)[i];
    assert forall i :: 0 <= i < |b| ==> b[i] == (a + b)[|a| + i];
  }

  /** Cutting segments without superscript/subscript characters changes neither reading. */
  lemma {:induction false} ProcessKeepsReadings(segs: seq<TextSegment<Formatting>>)
    requires forall k :: 0 <= k < |segs| ==> NoSupSub(segs[k].text)
    ensures Shown(Process(segs)) == Shown(segs)
    ensures Former(Process(segs)) == Former(segs)
  {
    if segs != [] {
      var init, last := segs[..|segs| - 1], segs[|segs| - 1];
      assert segs == init + [last];
      ProcessKeepsReadings(init);
      PlainPieces(last);
      ShownAppend(Process(init), Pieces(last));
      FormerAppend(Process(init), Pieces(last));
      ShownAppend(init, [last]);
      FormerAppend(init, [last]);
    }
  }

  /** A segment without superscript/subscript characters is one plain piece with its flags, or nothing when empty. */
  lemma PlainPieces(seg: TextSegment<Formatting>)
    requires NoSupSub(seg.text)
    ensures Shown(Pieces(seg)) == Shown([seg]) && Former(Pieces(seg)) == Former([seg])
  {
    var empty: string := [];
    PlainPiecesFrom(seg, 0, empty);
    assert empty + seg.text[0..] == seg.text;
    assert [seg][1..] == [];
    if seg.text != [] {
      assert Pieces(seg) == [PlainPiece(seg, seg.text)];
      assert [PlainPiece(seg, seg.text)][1..] == [];
    }
  }

  lemma {:induction false} PlainPiecesFrom(seg: TextSegment<Formatting>, i: nat, currentText: string)
    requires i <= |seg.text| && NoSupSub(seg.text)
    ensures PiecesFrom(seg, i, currentText) == Flushed(seg, currentText + seg.text[i..])
    decreases |seg.text| - i
  {
    if i < |seg.text| {
      PlainPiecesFrom(seg, i + 1, currentText + [seg.text[i]]);
      assert seg.text[i..] == [seg.text[i]] + seg.text[i + 1..];
      assert currentText + [seg.text[i]] + seg.text[i + 1..] == currentText + seg.text[i..];
    } else {
      assert currentText + seg.text[i..] == currentText;
    }
  }

  /**
   * A deleted superscript is shown as an unchanged superscript: the group
   * cut out of a removed token is neither marked changed nor deleted, so
   * the reader sees U+2074 (SUPERSCRIPT FOUR) as if it were still there.
   */
  lemma DeletedSuperscriptShownUnchanged(f: Formatting)
    ensures var removed := TextSegment("\U{2074}", true, true, false, false, f);
      Process([removed]) == [TextSegment("\U{2074}", false, false, true, false, f)]
      && Shown(Process([removed])) == "\U{2074}" && Shown([removed]) == []
  {
    var removed := TextSegment("\U{2074}", true, true, false, false, f);
    var text := removed.text;
    assert IsSuperscriptOrSubscript(text[0]) && IsSuperscriptChar(text[0]);
    assert GroupEnd(text, 1) == 1;
    assert text[0..1] == text;
    assert PiecesFrom(removed, 1, []) == [];
    assert Pieces(removed) == [GroupPiece(removed, text)];
    assert [removed][..0] == [];
    assert Process([removed]) == Pieces(removed);
  }
}
