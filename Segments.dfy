/**
 * compareTexts and processSuperSubscriptsInSegments: the word diff of the
 * original and corrected paragraph texts becomes a list of text segments,
 * each carrying the formatting of the original run it came from, and every
 * segment is then cut so that Unicode superscript/subscript characters end
 * up in segments of their own.
 */
module Segments {
  import opened Wrappers
  import opened Strings
  import opened CharClass
  import opened Masking
  import opened Tokenizer
  import opened WordDiff

  /** TextSegment: a piece of the rebuilt paragraph and how it is to be shown. */
  datatype TextSegment<F> = TextSegment(
    text: string, isChanged: bool, isDeleted: bool, isSuperscript: bool, isSubscript: bool, formatting: F)

  /** The text of a list of segments, in order. */
  function TextsOf<F>(segs: seq<TextSegment<F>>): string {
    if segs == [] then [] else segs[0].text + TextsOf(segs[1..])
  }

  lemma {:induction false} TextsOfAppend<F>(a: seq<TextSegment<F>>, b: seq<TextSegment<F>>)
    ensures TextsOf(a + b) == TextsOf(a) + TextsOf(b)
  {
    if a == [] {
      assert a + b == b;
    } else {
      assert (a + b)[0] == a[0] && (a + b)[1..] == a[1..] + b;
      TextsOfAppend(a[1..], b);
    }
  }

  // ---------------------------------------------------------------------
  // The character-to-formatting map
  // ---------------------------------------------------------------------

  /** The formatting of the run holding character k of the runs' joined text; None off the text. */
  function FormatAt<F>(runs: seq<RunInfo<F>>, k: int): Option<F> {
    if runs == [] || k < 0 then None
    else if k < |runs[0].text| then Some(runs[0].formatting)
    else FormatAt(runs[1..], k - |runs[0].text|)
  }

  /** Map.get: the value under k, or None (Java's null) when k is not a key. */
  function Lookup<F>(m: map<int, F>, k: int): Option<F> {
    if k in m then Some(m[k]) else None
  }

  lemma {:induction false} ConcatTextsSnoc<F>(runs: seq<RunInfo<F>>, r: RunInfo<F>)
    ensures ConcatTexts(runs + [r]) == ConcatTexts(runs) + r.text
  {
    if runs == [] {
      assert ConcatTexts([r]) == r.text + ConcatTexts([r][1..]);
    } else {
      assert (runs + [r])[1..] == runs[1..] + [r];
      ConcatTextsSnoc(runs[1..], r);
    }
  }

  /** Adding a run at the end gives the positions after the old text to that run. */
  lemma {:induction false} FormatAtSnoc<F>(runs: seq<RunInfo<F>>, r: RunInfo<F>, k: int)
    ensures FormatAt(runs + [r], k) ==
      if k < 0 then None
      else if k < |ConcatTexts(runs)| then FormatAt(runs, k)
      else if k < |ConcatTexts(runs)| + |r.text| then Some(r.formatting)
      else None
  {
    if runs == [] {
      assert [r][1..] == [];
    } else if k >= |runs[0].text| {
      assert (runs + [r])[1..] == runs[1..] + [r];
      FormatAtSnoc(runs[1..], r, k - |runs[0].text|);
    }
  }

  /** Every character of the joined text has a formatting, and nothing else does. */
  lemma {:induction false} FormatAtDefined<F>(runs: seq<RunInfo<F>>, k: int)
    ensures FormatAt(runs, k).Some? <==> 0 <= k < |ConcatTexts(runs)|
  {
    if runs != [] && k >= |runs[0].text| {
      FormatAtDefined(runs[1..], k - |runs[0].text|);
    }
  }

  /** Character i of run r sits at offset |text of runs[..r]| + i, and that offset maps to run r's formatting. */
  lemma {:induction false} FormatAtRun<F>(runs: seq<RunInfo<F>>, r: nat, i: nat)
    requires r < |runs| && i < |runs[r].text|
    ensures FormatAt(runs, |ConcatTexts(runs[..r])| + i) == Some(runs[r].formatting)
    ensures |ConcatTexts(runs[..r])| + i < |ConcatTexts(runs)| &&
      ConcatTexts(runs)[|ConcatTexts(runs[..r])| + i] == runs[r].text[i]
  {
    if r == 0 {
      assert runs[..0] == [];
    } else {
      assert runs[1..][..r - 1] == runs[..r][1..];
      FormatAtRun(runs[1..], r - 1, i);
      assert runs[..r] == [runs[0]] + runs[1..][..r - 1];
      assert ConcatTexts(runs[..r]) == runs[0].text + ConcatTexts(runs[1..][..r - 1]);
    }
  }

  /** The map after the first n characters of a run with formatting f have been entered after the runs in done. */
  function Grown<F>(done: seq<RunInfo<F>>, base: int, n: nat, f: F, k: int): Option<F> {
    if k < 0 then None
    else if k < base then FormatAt(done, k)
    else if k < base + n then Some(f)
    else None
  }

  /** The first loop of compareTexts: charFormattingMap, one entry per character of the runs. */
  method BuildFormattingMap<F>(originalRuns: seq<RunInfo<F>>) returns (charFormattingMap: map<int, F>)
    ensures forall k :: Lookup(charFormattingMap, k) == FormatAt(originalRuns, k)
  {
    charFormattingMap := map[];
    var charIndex := 0;
    for r := 0 to |originalRuns|
      invariant charIndex == |ConcatTexts(originalRuns[..r])|
      invariant forall k :: Lookup(charFormattingMap, k) == FormatAt(originalRuns[..r], k)
    {
      var runInfo := originalRuns[r];
      ghost var base := charIndex;
      forall k ensures Lookup(charFormattingMap, k) == Grown(originalRuns[..r], base, 0, runInfo.formatting, k) {
        FormatAtDefined(originalRuns[..r], k);
      }
      for i := 0 to |runInfo.text|
        invariant charIndex == base + i
        invariant forall k :: Lookup(charFormattingMap, k) == Grown(originalRuns[..r], base, i, runInfo.formatting, k)
      {
        ghost var before := charFormattingMap;
        charFormattingMap := charFormattingMap[charIndex := runInfo.formatting];
        charIndex := charIndex + 1;
        forall k ensures Lookup(charFormattingMap, k) == Grown(originalRuns[..r], base, i + 1, runInfo.formatting, k) {
          assert Lookup(before, k) == Grown(originalRuns[..r], base, i, runInfo.formatting, k);
        }
      }
      assert originalRuns[..r + 1] == originalRuns[..r] + [runInfo];
      ConcatTextsSnoc(originalRuns[..r], runInfo);
      forall k ensures Lookup(charFormattingMap, k) == FormatAt(originalRuns[..r + 1], k) {
        FormatAtSnoc(originalRuns[..r], runInfo, k);
      }
    }
    assert originalRuns[..|originalRuns|] == originalRuns;
  }

  // ---------------------------------------------------------------------
  // Labelling the diff entries
  // ---------------------------------------------------------------------

  /** The characters of the original text the entries use up: the texts of all entries that are not ADDED. */
  function Consumed(ds: seq<DiffResult>): nat {
    if ds == [] then 0
    else Consumed(ds[..|ds| - 1]) + (if ds[|ds| - 1].kind != Added then |ds[|ds| - 1].text| else 0)
  }

  /** The formatting used when the map has no entry: the first run's, or a blank one when there are no runs. */
  function Fallback<F>(runs: seq<RunInfo<F>>, blank: F): F {
    if runs == [] then blank else runs[0].formatting
  }

  /**
   * The segment for diff entry d when pos characters of the original text
   * come before it: a kept or removed token takes the formatting of the
   * character at pos, an added one that of the character before pos (or of
   * the first character when pos is 0).
   */
  function SegmentFor<F>(d: DiffResult, pos: nat, runs: seq<RunInfo<F>>, blank: F): TextSegment<F> {
    var at := if d.kind != Added then pos else Max(0, pos - 1);
    var formatting := match FormatAt(runs, at) case Some(f) => f case None => Fallback(runs, blank);
    TextSegment(d.text, d.kind != Unchanged, d.kind == Removed, false, false, formatting)
  }

  /** The segments the main loop of compareTexts builds, one per diff entry. */
  function Label<F>(ds: seq<DiffResult>, runs: seq<RunInfo<F>>, blank: F): (segs: seq<TextSegment<F>>)
    ensures |segs| == |ds|
  {
    if ds == [] then []
    else Label(ds[..|ds| - 1], runs, blank) + [SegmentFor(ds[|ds| - 1], Consumed(ds[..|ds| - 1]), runs, blank)]
  }

  // ---------------------------------------------------------------------
  // Cutting out superscript/subscript groups
  // ---------------------------------------------------------------------

  /** A piece of plain text cut from seg: it keeps seg's change flags and formatting. */
  function PlainPiece<F>(seg: TextSegment<F>, text: string): TextSegment<F> {
    TextSegment(text, seg.isChanged, seg.isDeleted, false, false, seg.formatting)
  }

  /**
   * A group of superscript/subscript characters cut from seg: never marked as
   * changed or deleted, and superscript or subscript by its first character.
   */
  function GroupPiece<F>(seg: TextSegment<F>, group: string): TextSegment<F>
    requires group != []
  {
    var isSuper := IsSuperscriptChar(group[0]);
    TextSegment(group, false, false, isSuper, !isSuper, seg.formatting)
  }

  /** The index just past the run of sup/sub characters that starts at i (i itself when there is none). */
  function GroupEnd(text: string, i: nat): (j: nat)
    requires i <= |text|
    ensures i <= j <= |text|
    ensures forall k :: i <= k < j ==> IsSuperscriptOrSubscript(text[k])
    ensures j < |text| ==> !IsSuperscriptOrSubscript(text[j])
    decreases |text| - i
  {
    if i < |text| && IsSuperscriptOrSubscript(text[i]) then GroupEnd(text, i + 1) else i
  }

  /** The pending plain text, as a segment when it is not empty. */
  function Flushed<F>(seg: TextSegment<F>, currentText: string): seq<TextSegment<F>> {
    if |currentText| > 0 then [PlainPiece(seg, currentText)] else []
  }

  /** The pieces processSuperSubscriptsInSegments emits for seg from index i on, with currentText pending. */
  function PiecesFrom<F>(seg: TextSegment<F>, i: nat, currentText: string): seq<TextSegment<F>>
    requires i <= |seg.text|
    decreases |seg.text| - i
  {
    if i == |seg.text| then Flushed(seg, currentText)
    else if IsSuperscriptOrSubscript(seg.text[i]) then
      var j := GroupEnd(seg.text, i + 1);
      Flushed(seg, currentText) + [GroupPiece(seg, seg.text[i..j])] + PiecesFrom(seg, j, [])
    else PiecesFrom(seg, i + 1, currentText + [seg.text[i]])
  }

  function Pieces<F>(seg: TextSegment<F>): seq<TextSegment<F>> {
    PiecesFrom(seg, 0, [])
  }

  /** The result of processSuperSubscriptsInSegments: the pieces of every segment, in order. */
  function Process<F>(segs: seq<TextSegment<F>>): seq<TextSegment<F>> {
    if segs == [] then [] else Process(segs[..|segs| - 1]) + Pieces(segs[|segs| - 1])
  }

  /** processSuperSubscriptsInSegments: every segment replaced by its pieces. */
  method ProcessSuperSubscriptsInSegments<F>(segments: seq<TextSegment<F>>) returns (result: seq<TextSegment<F>>)
    ensures result == Process(segments)
  {
    result := [];
    for s := 0 to |segments|
      invariant result == Process(segments[..s])
    {
      var pieces := CutSegment(segments[s]);
      assert segments[..s + 1] == segments[..s] + [segments[s]];
      result := result + pieces;
    }
    assert segments[..|segments|] == segments;
  }

  /**
   * The body of the per-segment loop: plain characters accumulate in
   * currentText, which is emitted when a sup/sub character or the end of the
   * text is reached; a sup/sub character starts a group that takes every
   * sup/sub character that follows.
   */
  method CutSegment<F>(segment: TextSegment<F>) returns (pieces: seq<TextSegment<F>>)
    ensures pieces == Pieces(segment)
  {
    pieces := [];
    var text := segment.text;
    var i := 0;
    var currentText := "";
    while i < |text|
      invariant i <= |text|
      invariant pieces + PiecesFrom(segment, i, currentText) == Pieces(segment)
    {
      var c := text[i];
      if IsSuperscriptOrSubscript(c) {
        ghost var emitted, pending := pieces, currentText;
        if |currentText| > 0 {
          pieces := pieces + [PlainPiece(segment, currentText)];
          currentText := "";
        }
        assert pieces == emitted + Flushed(segment, pending);
        var start := i;
        var isSuper := IsSuperscriptChar(c);
        var supsubGroup;
        supsubGroup, i := CollectGroup(text, start);
        var piece := TextSegment(supsubGroup, false, false, isSuper, !isSuper, segment.formatting);
        assert PiecesFrom(segment, start, pending) == Flushed(segment, pending) + [piece] + PiecesFrom(segment, i, []);
        Regroup(emitted, Flushed(segment, pending), piece, PiecesFrom(segment, i, []));
        pieces := pieces + [piece];
      } else {
        currentText := currentText + [c];
        i := i + 1;
      }
    }
    if |currentText| > 0 {
      pieces := pieces + [PlainPiece(segment, currentText)];
    }
  }

  /** The inner loop at a sup/sub character: the group of sup/sub characters from start, and the index after it. */
  method CollectGroup(text: string, start: nat) returns (supsubGroup: string, i: nat)
    requires start < |text| && IsSuperscriptOrSubscript(text[start])
    ensures i == GroupEnd(text, start + 1) && supsubGroup == text[start..i]
  {
    i := start;
    supsubGroup := "";
    while i < |text| && IsSuperscriptOrSubscript(text[i])
      invariant start <= i <= |text|
      invariant supsubGroup == text[start..i]
      invariant i == start || GroupEnd(text, i) == GroupEnd(text, start + 1)
    {
      SliceSnoc(text, start, i);
      supsubGroup := supsubGroup + [text[i]];
      i := i + 1;
    }
  }

  lemma Regroup<T>(done: seq<T>, flushed: seq<T>, piece: T, rest: seq<T>)
    ensures done + (flushed + [piece] + rest) == (done + flushed) + [piece] + rest
  {
  }

  /**
   * compareTexts: split both texts into tokens, diff them, give every entry
   * its segment, then cut out the superscript/subscript groups.  The
   * placeholders argument of the Java method is never read and is dropped.
   */
  method CompareTexts<F>(original: string, corrected: string, originalRuns: seq<RunInfo<F>>, blank: F)
    returns (segments: seq<TextSegment<F>>)
    ensures segments == Process(Label(Diff(Split(original), Split(corrected)), originalRuns, blank))
  {
    var charFormattingMap := BuildFormattingMap(originalRuns);
    var origWords := Split(original);
    var corrWords := Split(corrected);
    var diffs := ComputeWordDiff(origWords, corrWords);
    var labelled := LabelDiffs(diffs, charFormattingMap, originalRuns, blank);
    segments := ProcessSuperSubscriptsInSegments(labelled);
  }

  /** The main loop of compareTexts: one segment per diff entry, with the cursor into the original text. */
  method LabelDiffs<F>(diffs: seq<DiffResult>, charFormattingMap: map<int, F>, originalRuns: seq<RunInfo<F>>, blank: F)
    returns (labelled: seq<TextSegment<F>>)
    requires forall k :: Lookup(charFormattingMap, k) == FormatAt(originalRuns, k)
    ensures labelled == Label(diffs, originalRuns, blank)
  {
    labelled := [];
    var origCharPos: nat := 0;
    for k := 0 to |diffs|
      invariant labelled == Label(diffs[..k], originalRuns, blank)
      invariant origCharPos == Consumed(diffs[..k])
    {
      var segment;
      segment, origCharPos := LabelEntry(diffs[k], origCharPos, charFormattingMap, originalRuns, blank);
      assert diffs[..k + 1] == diffs[..k] + [diffs[k]];
      LabelSnoc(diffs[..k], diffs[k], originalRuns, blank);
      labelled := labelled + [segment];
    }
    assert diffs[..|diffs|] == diffs;
  }

  /** One turn of the main loop of compareTexts: the segment for diff at the cursor, and the cursor after it. */
  method LabelEntry<F>(diff: DiffResult, origCharPos: nat, charFormattingMap: map<int, F>, originalRuns: seq<RunInfo<F>>, blank: F)
    returns (segment: TextSegment<F>, nextPos: nat)
    requires forall k :: Lookup(charFormattingMap, k) == FormatAt(originalRuns, k)
    ensures segment == SegmentFor(diff, origCharPos, originalRuns, blank)
    ensures nextPos == origCharPos + (if diff.kind != Added then |diff.text| else 0)
  {
    var isChanged := diff.kind != Unchanged;
    var isDeleted := diff.kind == Removed;
    var formatting: Option<F>;
    nextPos := origCharPos;
    if diff.kind == Unchanged || diff.kind == Removed {
      formatting := Lookup(charFormattingMap, origCharPos);
      nextPos := origCharPos + |diff.text|;
    } else {
      formatting := Lookup(charFormattingMap, Max(0, origCharPos - 1));
    }
    var chosen := if formatting.None? then Fallback(originalRuns, blank) else formatting.value;
    segment := TextSegment(diff.text, isChanged, isDeleted, false, false, chosen);
  }

  // ---------------------------------------------------------------------
  // Where the cursor of compareTexts points
  // ---------------------------------------------------------------------

  /** Before, After and Consumed distribute over concatenation. */
  lemma {:induction false} ScriptAppend(a: seq<DiffResult>, b: seq<DiffResult>)
    ensures Before(a + b) == Before(a) + Before(b)
    ensures After(a + b) == After(a) + After(b)
    ensures Consumed(a + b) == Consumed(a) + Consumed(b)
    decreases |b|
  {
    if b == [] {
      assert a + b == a;
    } else {
      var init, e := b[..|b| - 1], b[|b| - 1];
      assert b == init + [e];
      assert a + b == (a + init) + [e];
      ScriptAppend(a, init);
      Snoc(a + init, e);
      Snoc(init, e);
      ConsumedSnoc(a + init, e);
      ConsumedSnoc(init, e);
    }
  }

  /** Labelling one more entry appends its segment, placed at the cursor the earlier entries reach. */
  lemma LabelSnoc<F>(ds: seq<DiffResult>, e: DiffResult, runs: seq<RunInfo<F>>, blank: F)
    ensures Label(ds + [e], runs, blank) == Label(ds, runs, blank) + [SegmentFor(e, Consumed(ds), runs, blank)]
    ensures Consumed(ds + [e]) == Consumed(ds) + (if e.kind != Added then |e.text| else 0)
  {
    assert (ds + [e])[..|ds|] == ds;
  }

  lemma ConsumedSnoc(ds: seq<DiffResult>, e: DiffResult)
    ensures Consumed(ds + [e]) == Consumed(ds) + (if e.kind != Added then |e.text| else 0)
  {
    assert (ds + [e])[..|ds|] == ds;
  }

  /** The cursor after a list of entries is the length of the original tokens they use up. */
  lemma {:induction false} ConsumedIsLength(ds: seq<DiffResult>)
    ensures Consumed(ds) == |Concat(Before(ds))|
  {
    if ds != [] {
      var init, e := ds[..|ds| - 1], ds[|ds| - 1];
      assert ds == init + [e];
      ConsumedIsLength(init);
      ConsumedSnoc(init, e);
      Snoc(init, e);
      if e.kind != Added {
        ConcatSnoc(Before(init), e.text);
      } else {
        assert Before(ds) == Before(init);
      }
    }
  }

  /**
   * When entry k keeps or removes an original token, the cursor at entry k
   * is where that token starts in the original text, and the token is the
   * next one of the original token list.
   */
  lemma TokenAtCursor(ds: seq<DiffResult>, k: nat)
    requires k < |ds| && ds[k].kind != Added
    ensures |Before(ds[..k])| < |Before(ds)| && Before(ds)[|Before(ds[..k])|] == ds[k].text
    ensures Consumed(ds[..k]) + |ds[k].text| <= |Concat(Before(ds))|
    ensures Concat(Before(ds))[Consumed(ds[..k])..Consumed(ds[..k]) + |ds[k].text|] == ds[k].text
  {
    var head, e, tail := ds[..k], ds[k], ds[k + 1..];
    var t := e.text;
    assert ds == (head + [e]) + tail;
    ScriptAppend(head + [e], tail);
    Snoc(head, e);
    var b1, b2 := Before(head), Before(tail);
    assert Before(ds) == b1 + [t] + b2;
    assert (b1 + [t] + b2)[|b1|] == t;
    JoinConcat(b1, t, b2);
    ConsumedIsLength(head);
    JoinSlice(Concat(b1), t, Concat(b2));
  }

  lemma JoinConcat(b1: seq<string>, t: string, b2: seq<string>)
    ensures Concat(b1 + [t] + b2) == Concat(b1) + t + Concat(b2)
  {
    ConcatAppend(b1 + [t], b2);
    ConcatSnoc(b1, t);
  }

  lemma JoinSlice(x: string, t: string, y: string)
    ensures |x| + |t| <= |x + t + y| && (x + t + y)[|x|..|x| + |t|] == t
  {
  }

  /** Label has one segment per entry, each the segment for that entry at its cursor. */
  lemma {:induction false} LabelAt<F>(ds: seq<DiffResult>, runs: seq<RunInfo<F>>, blank: F)
    ensures |Label(ds, runs, blank)| == |ds|
    ensures forall k :: 0 <= k < |ds| ==> Label(ds, runs, blank)[k] == SegmentFor(ds[k], Consumed(ds[..k]), runs, blank)
  {
    if ds != [] {
      var init := ds[..|ds| - 1];
      LabelAt(init, runs, blank);
      forall k | 0 <= k < |ds|
        ensures Label(ds, runs, blank)[k] == SegmentFor(ds[k], Consumed(ds[..k]), runs, blank)
      {
        if k < |ds| - 1 {
          assert ds[..k] == init[..k] && ds[k] == init[k];
        } else {
          assert ds[..k] == init;
        }
      }
    }
  }

  /**
   * The entries compareTexts labels, read without the added ones, spell the
   * original text, and none of those tokens is empty unless the text is.
   */
  lemma DiffReadsOriginal(original: string, corrected: string)
    ensures Concat(Before(Diff(Split(original), Split(corrected)))) == original
    ensures original != [] ==> forall t :: t in Before(Diff(Split(original), Split(corrected))) ==> t != []
  {
    DiffIsScript(Split(original), Split(corrected));
    SplitPieces(original);
  }

  /**
   * In compareTexts, a token the diff keeps or removes takes the formatting of
   * the run that holds its first character: the cursor stands exactly where
   * the token sits in the original text.  The entries are any whose kept and
   * removed tokens are non-empty and spell the runs' text, as
   * DiffReadsOriginal shows the diff's are.
   */
  lemma KeptTokenFormatting<F>(ds: seq<DiffResult>, runs: seq<RunInfo<F>>, blank: F, k: nat)
    requires Concat(Before(ds)) == ConcatTexts(runs)
    requires forall t :: t in Before(ds) ==> t != []
    requires k < |ds| && ds[k].kind != Added
    ensures
      var original := ConcatTexts(runs);
      var pos := Consumed(ds[..k]);
      && pos < pos + |ds[k].text| <= |original|
      && original[pos..pos + |ds[k].text|] == ds[k].text
      && FormatAt(runs, pos).Some?
      && Label(ds, runs, blank)[k] ==
           TextSegment(ds[k].text, ds[k].kind == Removed, ds[k].kind == Removed, false, false, FormatAt(runs, pos).value)
  {
    CursorToken(ds, ConcatTexts(runs), k);
    FormatAtDefined(runs, Consumed(ds[..k]));
    LabelAtEntry(ds, runs, blank, k);
  }

  /** The token of a kept or removed entry sits in the original text at the cursor. */
  lemma CursorToken(ds: seq<DiffResult>, original: string, k: nat)
    requires Concat(Before(ds)) == original
    requires forall t :: t in Before(ds) ==> t != []
    requires k < |ds| && ds[k].kind != Added
    ensures
      var pos := Consumed(ds[..k]);
      && pos < pos + |ds[k].text| <= |original|
      && original[pos..pos + |ds[k].text|] == ds[k].text
  {
    TokenAtCursor(ds, k);
    assert ds[k].text in Before(ds);
  }

  lemma LabelAtEntry<F>(ds: seq<DiffResult>, runs: seq<RunInfo<F>>, blank: F, k: nat)
    requires k < |ds|
    ensures Label(ds, runs, blank)[k] == SegmentFor(ds[k], Consumed(ds[..k]), runs, blank)
  {
    LabelAt(ds, runs, blank);
  }

  /**
   * In compareTexts, an added token takes the formatting of the original
   * character just before the cursor, or of the first character when the
   * cursor is at the start; only an empty original text would leave it the
   * fallback formatting.
   */
  lemma AddedTokenFormatting<F>(ds: seq<DiffResult>, runs: seq<RunInfo<F>>, blank: F, k: nat)
    requires Concat(Before(ds)) == ConcatTexts(runs) != []
    requires k < |ds| && ds[k].kind == Added
    ensures
      var pos := Consumed(ds[..k]);
      && pos <= |ConcatTexts(runs)|
      && FormatAt(runs, Max(0, pos - 1)).Some?
      && Label(ds, runs, blank)[k] ==
           TextSegment(ds[k].text, true, false, false, false, FormatAt(runs, Max(0, pos - 1)).value)
  {
    var original := ConcatTexts(runs);
    ConsumedIsLength(ds);
    ConsumedPrefix(ds, k);
    var pos := Consumed(ds[..k]);
    assert pos <= |original|;
    var at := Max(0, pos - 1);
    assert 0 <= at < |original|;
    FormatAtDefined(runs, at);
    LabelAtEntry(ds, runs, blank, k);
  }

  /** The cursor only moves forward. */
  lemma {:induction false} ConsumedPrefix(ds: seq<DiffResult>, k: nat)
    requires k <= |ds|
    ensures Consumed(ds[..k]) <= Consumed(ds)
    decreases |ds|
  {
    if k < |ds| {
      var init := ds[..|ds| - 1];
      assert ds[..k] == init[..k];
      ConsumedPrefix(init, k);
    } else {
      assert ds[..k] == ds;
    }
  }

  // ---------------------------------------------------------------------
  // What a reader of the rebuilt paragraph sees
  // ---------------------------------------------------------------------

  /** The text that is not struck through: every segment except the deleted ones. */
  function Shown<F>(segs: seq<TextSegment<F>>): string {
    if segs == [] then [] else (if segs[0].isDeleted then [] else segs[0].text) + Shown(segs[1..])
  }

  /** The text as it was: every segment except the added ones (changed but not deleted). */
  function Former<F>(segs: seq<TextSegment<F>>): string {
    if segs == [] then [] else (if segs[0].isChanged && !segs[0].isDeleted then [] else segs[0].text) + Former(segs[1..])
  }

  lemma {:induction false} ShownAppend<F>(a: seq<TextSegment<F>>, b: seq<TextSegment<F>>)
    ensures Shown(a + b) == Shown(a) + Shown(b)
  {
    if a == [] {
      assert a + b == b;
    } else {
      var h := if a[0].isDeleted then [] else a[0].text;
      assert (a + b)[0] == a[0] && (a + b)[1..] == a[1..] + b;
      assert Shown(a + b) == h + Shown(a[1..] + b);
      ShownAppend(a[1..], b);
      assert Shown(a) == h + Shown(a[1..]);
    }
  }

  lemma {:induction false} FormerAppend<F>(a: seq<TextSegment<F>>, b: seq<TextSegment<F>>)
    ensures Former(a + b) == Former(a) + Former(b)
  {
    if a == [] {
      assert a + b == b;
    } else {
      var h := if a[0].isChanged && !a[0].isDeleted then [] else a[0].text;
      assert (a + b)[0] == a[0] && (a + b)[1..] == a[1..] + b;
      assert Former(a + b) == h + Former(a[1..] + b);
      FormerAppend(a[1..], b);
      assert Former(a) == h + Former(a[1..]);
    }
  }

  /** Reading the labelled segments without the deleted ones gives the corrected tokens, without the added ones the original tokens. */
  lemma {:induction false} LabelReadings<F>(ds: seq<DiffResult>, runs: seq<RunInfo<F>>, blank: F)
    ensures Shown(Label(ds, runs, blank)) == Concat(After(ds))
    ensures Former(Label(ds, runs, blank)) == Concat(Before(ds))
  {
    if ds != [] {
      var init, e := ds[..|ds| - 1], ds[|ds| - 1];
      var seg := SegmentFor(e, Consumed(init), runs, blank);
      assert ds == init + [e];
      assert Label(ds, runs, blank) == Label(init, runs, blank) + [seg];
      Snoc(init, e);
      LabelReadings(init, runs, blank);
      ShownAppend(Label(init, runs, blank), [seg]);
      FormerAppend(Label(init, runs, blank), [seg]);
      assert [seg][1..] == [];
      if e.kind != Removed {
        ConcatSnoc(After(init), e.text);
        assert Shown([seg]) == e.text;
      } else {
        assert After(ds) == After(init);
        assert Shown([seg]) == [];
      }
      if e.kind != Added {
        ConcatSnoc(Before(init), e.text);
        assert Former([seg]) == e.text;
      } else {
        assert Before(ds) == Before(init);
        assert Former([seg]) == [];
      }
    }
  }

  /**
   * The segments compareTexts labels read as the corrected text when the
   * deleted ones are skipped, and as the original text when the added ones
   * are skipped.
   */
  lemma LabelledTexts<F>(original: string, corrected: string, runs: seq<RunInfo<F>>, blank: F)
    ensures Shown(Label(Diff(Split(original), Split(corrected)), runs, blank)) == corrected
    ensures Former(Label(Diff(Split(original), Split(corrected)), runs, blank)) == original
  {
    var ds := Diff(Split(original), Split(corrected));
    DiffIsScript(Split(original), Split(corrected));
    LabelReadings(ds, runs, blank);
    SplitSpells(original);
    SplitSpells(corrected);
  }

  // ---------------------------------------------------------------------
  // What cutting out the sup/sub groups does
  // ---------------------------------------------------------------------

  ghost predicate IsPlainPiece<F>(p: TextSegment<F>, seg: TextSegment<F>) {
    |p.text| > 0 && All(p.text, IsPlain) && p == PlainPiece(seg, p.text)
  }

  ghost predicate IsGroupPiece<F>(p: TextSegment<F>, seg: TextSegment<F>) {
    |p.text| > 0 && All(p.text, IsSuperscriptOrSubscript) && p == GroupPiece(seg, p.text)
  }

  /**
   * The shape of the pieces of seg: each is a run of plain characters with
   * seg's flags, or a group of sup/sub characters marked by its first
   * character, and plain runs and groups alternate.
   */
  ghost predicate WellCut<F>(seg: TextSegment<F>, ps: seq<TextSegment<F>>) {
    && (forall k :: 0 <= k < |ps| ==> IsPlainPiece(ps[k], seg) || IsGroupPiece(ps[k], seg))
    && (forall k :: 0 <= k < |ps| - 1 ==> IsPlainPiece(ps[k], seg) != IsPlainPiece(ps[k + 1], seg))
  }

  lemma WellCutCons<F>(seg: TextSegment<F>, p: TextSegment<F>, ps: seq<TextSegment<F>>)
    requires IsPlainPiece(p, seg) || IsGroupPiece(p, seg)
    requires WellCut(seg, ps)
    requires |ps| > 0 ==> IsPlainPiece(p, seg) != IsPlainPiece(ps[0], seg)
    ensures WellCut(seg, [p] + ps)
  {
    var qs := [p] + ps;
    forall k | 0 <= k < |qs| - 1
      ensures IsPlainPiece(qs[k], seg) != IsPlainPiece(qs[k + 1], seg)
    {
      if k > 0 {
        assert qs[k] == ps[k - 1] && qs[k + 1] == ps[k];
      }
    }
  }

  /** A group piece is never a plain piece: their first characters differ in kind. */
  lemma GroupNotPlain<F>(p: TextSegment<F>, seg: TextSegment<F>)
    requires IsGroupPiece(p, seg)
    ensures !IsPlainPiece(p, seg)
  {
    assert IsSuperscriptOrSubscript(p.text[0]);
  }

  /** The pieces from index i with currentText pending spell currentText followed by the rest of the text. */
  lemma {:induction false} PiecesFromText<F>(seg: TextSegment<F>, i: nat, currentText: string)
    requires i <= |seg.text|
    ensures TextsOf(PiecesFrom(seg, i, currentText)) == currentText + seg.text[i..]
    decreases |seg.text| - i
  {
    var text := seg.text;
    if i == |text| {
      FlushedText(seg, currentText);
      assert text[i..] == [];
    } else if IsSuperscriptOrSubscript(text[i]) {
      var j := GroupEnd(text, i + 1);
      var empty: string := [];
      PiecesFromText(seg, j, empty);
      assert empty + text[j..] == text[j..];
      GroupStepText(seg, i, currentText);
    } else {
      PiecesFromText(seg, i + 1, currentText + [text[i]]);
      PlainStepText(seg, i, currentText);
    }
  }

  /** The group step of PiecesFromText, given what the pieces after the group spell. */
  lemma GroupStepText<F>(seg: TextSegment<F>, i: nat, currentText: string)
    requires i < |seg.text| && IsSuperscriptOrSubscript(seg.text[i])
    requires TextsOf(PiecesFrom(seg, GroupEnd(seg.text, i + 1), [])) == seg.text[GroupEnd(seg.text, i + 1)..]
    ensures TextsOf(PiecesFrom(seg, i, currentText)) == currentText + seg.text[i..]
  {
    var text := seg.text;
    var j := GroupEnd(text, i + 1);
    var group := text[i..j];
    FlushedText(seg, currentText);
    assert PiecesFrom(seg, i, currentText) == Flushed(seg, currentText) + [GroupPiece(seg, group)] + PiecesFrom(seg, j, []);
    GroupText(Flushed(seg, currentText), GroupPiece(seg, group), PiecesFrom(seg, j, []), currentText, text[j..]);
    SliceSplit(text, i, j);
  }

  /** The plain step of PiecesFromText, given what the pieces from the next index spell. */
  lemma PlainStepText<F>(seg: TextSegment<F>, i: nat, currentText: string)
    requires i < |seg.text| && !IsSuperscriptOrSubscript(seg.text[i])
    requires TextsOf(PiecesFrom(seg, i + 1, currentText + [seg.text[i]])) == currentText + [seg.text[i]] + seg.text[i + 1..]
    ensures TextsOf(PiecesFrom(seg, i, currentText)) == currentText + seg.text[i..]
  {
    var text := seg.text;
    assert PiecesFrom(seg, i, currentText) == PiecesFrom(seg, i + 1, currentText + [text[i]]);
    assert text[i..] == [text[i]] + text[i + 1..];
    assert currentText + [text[i]] + text[i + 1..] == currentText + text[i..];
  }

  lemma TextsSnoc<F>(segs: seq<TextSegment<F>>, last: TextSegment<F>)
    ensures TextsOf(segs + [last]) == TextsOf(segs) + last.text
  {
    TextsOfAppend(segs, [last]);
    assert [last][1..] == [];
    assert TextsOf([last]) == last.text + TextsOf([last][1..]);
  }

  /** The group step of PiecesFromText: the flushed text, the group and the pieces after it spell the pending text and the rest. */
  lemma GroupText<F>(flushed: seq<TextSegment<F>>, g: TextSegment<F>, rest: seq<TextSegment<F>>, currentText: string, tail: string)
    requires TextsOf(flushed) == currentText && TextsOf(rest) == tail
    ensures TextsOf(flushed + [g] + rest) == currentText + (g.text + tail)
  {
    TextsAround(flushed, g, rest);
  }

  /** The pieces from index i with currentText pending have the WellCut shape, and start with a plain run when plain text is pending or next. */
  lemma {:induction false} PiecesFromCut<F>(seg: TextSegment<F>, i: nat, currentText: string)
    requires i <= |seg.text| && All(currentText, IsPlain)
    ensures WellCut(seg, PiecesFrom(seg, i, currentText))
    ensures |currentText| > 0 || (i < |seg.text| && IsPlain(seg.text[i])) ==>
      |PiecesFrom(seg, i, currentText)| > 0 && IsPlainPiece(PiecesFrom(seg, i, currentText)[0], seg)
    decreases |seg.text| - i
  {
    var text := seg.text;
    if i == |text| {
      FlushedCut(seg, currentText);
    } else if IsSuperscriptOrSubscript(text[i]) {
      var j := GroupEnd(text, i + 1);
      var group := text[i..j];
      var empty: string := [];
      assert All(empty, IsPlain);
      PiecesFromCut(seg, j, empty);
      assert All(group, IsSuperscriptOrSubscript) by {
        forall k | 0 <= k < |group| ensures IsSuperscriptOrSubscript(group[k]) {
          assert group[k] == text[i + k];
        }
      }
      GroupCut(seg, currentText, group, PiecesFrom(seg, j, empty));
    } else {
      PiecesFromCut(seg, i + 1, currentText + [text[i]]);
    }
  }

  lemma FlushedText<F>(seg: TextSegment<F>, currentText: string)
    ensures TextsOf(Flushed(seg, currentText)) == currentText
  {
    if |currentText| > 0 {
      var f := Flushed(seg, currentText);
      assert f[1..] == [];
      assert TextsOf(f) == currentText + TextsOf(f[1..]);
    }
  }

  /** The pending plain text, flushed, is a well-cut piece list. */
  lemma FlushedCut<F>(seg: TextSegment<F>, currentText: string)
    requires All(currentText, IsPlain)
    ensures WellCut(seg, Flushed(seg, currentText))
    ensures |currentText| > 0 ==> IsPlainPiece(Flushed(seg, currentText)[0], seg)
  {
  }

  /** The group step: flushed plain text, then the group, then the pieces after the group, keep the WellCut shape. */
  lemma GroupCut<F>(seg: TextSegment<F>, currentText: string, group: string, rest: seq<TextSegment<F>>)
    requires All(currentText, IsPlain)
    requires |group| > 0 && All(group, IsSuperscriptOrSubscript)
    requires WellCut(seg, rest)
    requires |rest| > 0 ==> IsPlainPiece(rest[0], seg)
    ensures WellCut(seg, Flushed(seg, currentText) + [GroupPiece(seg, group)] + rest)
    ensures |currentText| > 0 ==> IsPlainPiece((Flushed(seg, currentText) + [GroupPiece(seg, group)] + rest)[0], seg)
  {
    var g := GroupPiece(seg, group);
    assert IsGroupPiece(g, seg);
    GroupNotPlain(g, seg);
    WellCutCons(seg, g, rest);
    if |currentText| > 0 {
      var p := PlainPiece(seg, currentText);
      assert IsPlainPiece(p, seg);
      WellCutCons(seg, p, [g] + rest);
      assert Flushed(seg, currentText) + [g] + rest == [p] + ([g] + rest);
    } else {
      assert Flushed(seg, currentText) + [g] + rest == [g] + rest;
    }
  }

  /** The text of a piece list with one piece singled out in the middle. */
  lemma TextsAround<F>(before: seq<TextSegment<F>>, p: TextSegment<F>, after: seq<TextSegment<F>>)
    ensures TextsOf(before + [p] + after) == TextsOf(before) + p.text + TextsOf(after)
  {
    assert before + [p] + after == before + ([p] + after);
    TextsOfAppend(before, [p] + after);
    assert ([p] + after)[1..] == after;
  }

  /** Every segment is cut into alternating plain runs and sup/sub groups that spell its text. */
  lemma PiecesCut<F>(seg: TextSegment<F>)
    ensures TextsOf(Pieces(seg)) == seg.text
    ensures WellCut(seg, Pieces(seg))
  {
    var empty: string := [];
    assert All(empty, IsPlain);
    PiecesFromCut(seg, 0, empty);
    PiecesSpell(seg);
  }

  /** The pieces of a segment spell its text. */
  lemma PiecesSpell<F>(seg: TextSegment<F>)
    ensures TextsOf(Pieces(seg)) == seg.text
  {
    var empty: string := [];
    PiecesFromText(seg, 0, empty);
    assert empty + seg.text[0..] == seg.text;
  }

  /** processSuperSubscriptsInSegments keeps every character, in order. */
  lemma {:induction false} ProcessKeepsText<F>(segs: seq<TextSegment<F>>)
    ensures TextsOf(Process(segs)) == TextsOf(segs)
  {
    if segs != [] {
      var init, last := segs[..|segs| - 1], segs[|segs| - 1];
      ProcessKeepsText(init);
      PiecesSpell(last);
      TextsOfAppend(Process(init), Pieces(last));
      assert segs == init + [last];
      TextsSnoc(init, last);
    }
  }
}
