/**
 * addMarkersToSuperSubscripts: before a paragraph is checked, a visible
 * "(SUP)" or "(SUB)" run is inserted after every non-empty run that is
 * flagged superscript or subscript or holds a U+2070..U+208F character.
 *
 * WithMarkers is the specification: each run, followed by its marker when
 * it needs one.  The method works as the Java code does: a first pass
 * collects the insert positions and marker texts in two lists, a second
 * pass inserts the marker runs from the last position to the first.
 */
module Markers {
  import opened Wrappers
  import opened CharClass
  import opened Docx
  import opened Strings

  /** The text holds a character in U+2070..U+208F. */
  predicate HasSuperSubChar(text: string) {
    exists i :: 0 <= i < |text| && IsSuperscriptOrSubscript(text[i])
  }

  /** The first-pass test: the run has text and is flagged or holds a sup/sub character. */
  predicate NeedsMarker(run: Run) {
    TextOf(run) != [] && (IsSuperscriptRun(run) || IsSubscriptRun(run) || HasSuperSubChar(TextOf(run)))
  }

  /**
   * The marker for a run: by its flags when it has them, otherwise by the
   * run's first character (text.charAt(0)), which need not be the
   * superscript or subscript character that made the run need a marker.
   */
  function MarkerText(run: Run): (text: string)
    requires NeedsMarker(run)
    ensures text == "(SUP)" || text == "(SUB)"
    ensures IsSuperscriptRun(run) ==> text == "(SUP)"
    ensures !IsSuperscriptRun(run) && IsSubscriptRun(run) ==> text == "(SUB)"
  {
    if IsSuperscriptRun(run) then "(SUP)"
    else if IsSubscriptRun(run) then "(SUB)"
    else if IsSuperscriptChar(TextOf(run)[0]) then "(SUP)"
    else "(SUB)"
  }

  /** The run insertNewRun creates for a marker: its text, orange, bold, 10 points. */
  function MarkerRun(markerText: string): Run {
    Run(Some(markerText), Some(RunProps(Baseline, None, Some(MarkerColor), true, Some(10), false)))
  }

  /** The marker that follows run, if it gets one. */
  function MarkerAfter(run: Run): seq<Run> {
    if NeedsMarker(run) then [MarkerRun(MarkerText(run))] else []
  }

  /** The paragraph's runs after addMarkersToSuperSubscripts. */
  function WithMarkers(runs: seq<Run>): (marked: seq<Run>)
    ensures |marked| >= |runs|
  {
    if runs == [] then [] else [runs[0]] + MarkerAfter(runs[0]) + WithMarkers(runs[1..])
  }

  /** The runs before b as they are, the runs from b on with their markers. */
  function MarkAfter(runs: seq<Run>, b: nat): (marked: seq<Run>)
    requires b <= |runs|
    ensures |marked| >= |runs|
  {
    runs[..b] + WithMarkers(runs[b..])
  }

  /** The insertPositions list of the first pass: one past the index of every run that needs a marker. */
  function InsertPositions(runs: seq<Run>): seq<nat> {
    if runs == [] then []
    else InsertPositions(runs[..|runs| - 1]) + (if NeedsMarker(runs[|runs| - 1]) then [|runs|] else [])
  }

  /** The markerTexts list of the first pass. */
  function MarkerTexts(runs: seq<Run>): seq<string> {
    if runs == [] then []
    else
      var last := runs[|runs| - 1];
      MarkerTexts(runs[..|runs| - 1]) + (if NeedsMarker(last) then [MarkerText(last)] else [])
  }

  /** No run with index in [a, b) needs a marker. */
  ghost predicate Unflagged(runs: seq<Run>, a: nat, b: nat) {
    forall k :: a <= k < b && k < |runs| ==> !NeedsMarker(runs[k])
  }

  /** The run index just before the insert position j, or the end of the runs when j is past the last position. */
  function Hi(ps: seq<nat>, j: nat, n: nat): (hi: nat)
    ensures hi <= n
  {
    if j < |ps| && 1 <= ps[j] <= n then ps[j] - 1 else n
  }

  /** The two lists of the first pass are in step and name runs that need a marker, with the marker each gets. */
  lemma {:induction false} InsertPositionsFlagged(runs: seq<Run>)
    ensures var ps := InsertPositions(runs);
      && |ps| == |MarkerTexts(runs)|
      && forall i :: 0 <= i < |ps| ==>
           1 <= ps[i] <= |runs| && NeedsMarker(runs[ps[i] - 1]) && MarkerTexts(runs)[i] == MarkerText(runs[ps[i] - 1])
  {
    if runs != [] {
      var init, last := runs[..|runs| - 1], runs[|runs| - 1];
      InsertPositionsFlagged(init);
      var ps0, mt0 := InsertPositions(init), MarkerTexts(init);
      var ps, mt := InsertPositions(runs), MarkerTexts(runs);
      if NeedsMarker(last) {
        assert ps == ps0 + [|runs|] && mt == mt0 + [MarkerText(last)];
      } else {
        assert ps == ps0 && mt == mt0;
      }
      forall i | 0 <= i < |ps0| ensures ps[i] == ps0[i] && mt[i] == mt0[i] && runs[ps[i] - 1] == init[ps0[i] - 1] { }
    }
  }

  /** The insert positions increase. */
  lemma {:induction false} InsertPositionsIncrease(runs: seq<Run>)
    ensures var ps := InsertPositions(runs);
      forall i, j :: 0 <= i < j < |ps| ==> ps[i] < ps[j]
  {
    if runs != [] {
      var init, last := runs[..|runs| - 1], runs[|runs| - 1];
      InsertPositionsIncrease(init);
      InsertPositionsFlagged(init);
      var ps0, ps := InsertPositions(init), InsertPositions(runs);
      if NeedsMarker(last) {
        assert ps == ps0 + [|runs|];
      } else {
        assert ps == ps0;
      }
    }
  }

  /** Entry i of the two lists: the run before insert position i needs a marker and gets marker text i. */
  lemma MarkerTextAt(runs: seq<Run>, i: nat)
    requires i < |InsertPositions(runs)|
    ensures var ps := InsertPositions(runs);
      && 1 <= ps[i] <= |runs| && NeedsMarker(runs[ps[i] - 1])
      && i < |MarkerTexts(runs)| && MarkerTexts(runs)[i] == MarkerText(runs[ps[i] - 1])
  {
    InsertPositionsFlagged(runs);
  }

  /** The two lists have the same length. */
  lemma MarkerTextsLength(runs: seq<Run>)
    ensures |MarkerTexts(runs)| == |InsertPositions(runs)|
  {
    InsertPositionsFlagged(runs);
  }

  /** Every run that needs a marker has its insert position in the list. */
  lemma {:induction false} InsertPositionsComplete(runs: seq<Run>)
    ensures forall k :: 0 <= k < |runs| && NeedsMarker(runs[k]) ==> k + 1 in InsertPositions(runs)
  {
    if runs != [] {
      var init, last := runs[..|runs| - 1], runs[|runs| - 1];
      InsertPositionsComplete(init);
      var ps0, ps := InsertPositions(init), InsertPositions(runs);
      assert ps == ps0 + (if NeedsMarker(last) then [|runs|] else []);
      forall k | 0 <= k < |init| ensures runs[k] == init[k] { }
    }
  }

  /** No run whose insert position would lie in (a, b] needs a marker. */
  lemma UnflaggedBetween(runs: seq<Run>, a: nat, b: nat)
    requires forall p :: p in InsertPositions(runs) ==> p <= a || p > b
    ensures Unflagged(runs, a, b)
  {
    InsertPositionsComplete(runs);
  }

  /** The runs the second pass steps over between two markers need none. */
  lemma LoopGap(runs: seq<Run>, i: int)
    requires -1 <= i < |InsertPositions(runs)|
    ensures var ps := InsertPositions(runs);
      Unflagged(runs, if i < 0 then 0 else ps[i], Hi(ps, i + 1, |runs|))
  {
    var ps := InsertPositions(runs);
    InsertPositionsIncrease(runs);
    InsertPositionsFlagged(runs);
    var a := if i < 0 then 0 else ps[i];
    var b := Hi(ps, i + 1, |runs|);
    forall p | p in ps ensures p <= a || p > b {
      var m :| 0 <= m < |ps| && ps[m] == p;
      if m > i + 1 {
        assert ps[i + 1] < ps[m];
      }
    }
    UnflaggedBetween(runs, a, b);
  }

  /** MarkAfter opened at run a: the runs before a, run a, its marker, and the rest marked. */
  lemma MarkAfterAt(runs: seq<Run>, a: nat)
    requires a < |runs|
    ensures MarkAfter(runs, a) == runs[..a] + [runs[a]] + MarkerAfter(runs[a]) + WithMarkers(runs[a + 1..])
  {
    var tail := runs[a..];
    assert tail[0] == runs[a] && tail[1..] == runs[a + 1..];
    assert WithMarkers(tail) == [runs[a]] + MarkerAfter(runs[a]) + WithMarkers(runs[a + 1..]);
  }

  /** Skipping runs that need no marker does not change what MarkAfter gives. */
  lemma {:induction false} MarkAfterSkip(runs: seq<Run>, a: nat, b: nat)
    requires a <= b <= |runs| && Unflagged(runs, a, b)
    ensures MarkAfter(runs, a) == MarkAfter(runs, b)
    decreases b - a
  {
    if a < b {
      MarkAfterSkip(runs, a + 1, b);
      MarkAfterAt(runs, a);
      var front := runs[..a] + [runs[a]];
      assert MarkerAfter(runs[a]) == [] && front + [] == front;
      assert runs[..a + 1] == front;
    }
  }

  /** Inserting the marker of run k just after it extends the marked part of the runs to k. */
  lemma MarkAfterInsert(runs: seq<Run>, k: nat)
    requires k < |runs| && NeedsMarker(runs[k])
    ensures var m := MarkAfter(runs, k + 1);
      m[..k + 1] + [MarkerRun(MarkerText(runs[k]))] + m[k + 1..] == MarkAfter(runs, k)
  {
    var m := MarkAfter(runs, k + 1);
    var rest := WithMarkers(runs[k + 1..]);
    assert m == runs[..k + 1] + rest;
    assert m[..k + 1] == runs[..k + 1] && m[k + 1..] == rest;
    MarkAfterAt(runs, k);
    assert MarkerAfter(runs[k]) == [MarkerRun(MarkerText(runs[k]))];
    assert runs[..k + 1] == runs[..k] + [runs[k]];
  }

  /** The loop over text.toCharArray() that stops at the first sup/sub character. */
  method HasUnicodeSuperSub(text: string) returns (hasUnicodeSuperSub: bool)
    ensures hasUnicodeSuperSub <==> HasSuperSubChar(text)
  {
    hasUnicodeSuperSub := false;
    for i := 0 to |text|
      invariant !hasUnicodeSuperSub && forall j :: 0 <= j < i ==> !IsSuperscriptOrSubscript(text[j])
    {
      if IsSuperscriptOrSubscript(text[i]) {
        hasUnicodeSuperSub := true;
        break;
      }
    }
  }

  /**
   * The position adjustment of the second pass: position i is raised by one
   * for every later position at or below it.  The positions increase, so
   * it is never raised.
   */
  method AdjustedPosition(insertPositions: seq<nat>, i: nat) returns (position: nat)
    requires i < |insertPositions|
    requires forall a, b :: 0 <= a < b < |insertPositions| ==> insertPositions[a] < insertPositions[b]
    ensures position == insertPositions[i]
  {
    var adjusted: int := insertPositions[i];
    for j := i + 1 to |insertPositions|
      invariant adjusted == insertPositions[i]
    {
      if insertPositions[j] <= adjusted {
        adjusted := adjusted + 1;
      }
    }
    position := adjusted;
  }

  /** The first pass: the insert positions and marker texts, in run order. */
  method CollectMarkers(runs: seq<Run>) returns (insertPositions: seq<nat>, markerTexts: seq<string>)
    ensures insertPositions == InsertPositions(runs) && markerTexts == MarkerTexts(runs)
  {
    insertPositions := [];
    markerTexts := [];
    for i := 0 to |runs|
      invariant insertPositions == InsertPositions(runs[..i]) && markerTexts == MarkerTexts(runs[..i])
    {
      var run := runs[i];
      assert runs[..i + 1][..i] == runs[..i] && runs[..i + 1][i] == run;
      var text := run.text;
      if text.None? || text.value == [] {
        continue;
      }
      var isSuperscript := IsSuperscriptRun(run);
      var isSubscript := IsSubscriptRun(run);
      var hasUnicodeSuperSub := HasUnicodeSuperSub(text.value);
      if isSuperscript || isSubscript || hasUnicodeSuperSub {
        insertPositions := insertPositions + [i + 1];
        if isSuperscript {
          markerTexts := markerTexts + ["(SUP)"];
        } else if isSubscript {
          markerTexts := markerTexts + ["(SUB)"];
        } else {
          var isUniSuper := IsSuperscriptChar(text.value[0]);
          markerTexts := markerTexts + [if isUniSuper then "(SUP)" else "(SUB)"];
        }
      }
    }
    assert runs[..|runs|] == runs;
  }

  /** addMarkersToSuperSubscripts: the paragraph's runs become WithMarkers of what they were. */
  method AddMarkersToSuperSubscripts(paragraph: Paragraph)
    modifies paragraph
    ensures paragraph.runs == WithMarkers(old(paragraph.runs))
  {
    var runs := paragraph.runs;
    var insertPositions, markerTexts := CollectMarkers(runs);
    InsertMarkers(paragraph, insertPositions, markerTexts);
    SecondPassDone(runs);
  }

  /** The second pass: the markers are inserted from the last position to the first. */
  method InsertMarkers(paragraph: Paragraph, insertPositions: seq<nat>, markerTexts: seq<string>)
    requires insertPositions == InsertPositions(paragraph.runs) && markerTexts == MarkerTexts(paragraph.runs)
    modifies paragraph
    ensures paragraph.runs == MarkAfter(old(paragraph.runs), Hi(insertPositions, 0, |old(paragraph.runs)|))
  {
    ghost var runs := paragraph.runs;
    InsertPositionsIncrease(runs);
    MarkerTextsLength(runs);
    var i: int := |insertPositions| - 1;
    while i >= 0
      invariant -1 <= i < |insertPositions|
      invariant paragraph.runs == MarkAfter(runs, Hi(insertPositions, i + 1, |runs|))
    {
      var position := AdjustedPosition(insertPositions, i);
      var markerText := markerTexts[i];
      SecondPassStep(runs, insertPositions, markerTexts, i);
      ghost var before := paragraph.runs;
      paragraph.InsertNewRun(position, MarkerRun(markerText));
      assert paragraph.runs == before[..position] + [MarkerRun(markerText)] + before[position..];
      i := i - 1;
    }
  }

  /** Inserting marker i at its position extends the marked stretch of the runs down to that marker's run. */
  lemma SecondPassStep(runs: seq<Run>, ps: seq<nat>, texts: seq<string>, i: nat)
    requires ps == InsertPositions(runs) && texts == MarkerTexts(runs)
    requires i < |ps|
    ensures var m := MarkAfter(runs, Hi(ps, i + 1, |runs|));
      && ps[i] <= |m| && i < |texts|
      && m[..ps[i]] + [MarkerRun(texts[i])] + m[ps[i]..] == MarkAfter(runs, Hi(ps, i, |runs|))
  {
    MarkerTextAt(runs, i);
    if i + 1 < |ps| {
      InsertPositionsIncrease(runs);
      assert ps[i] < ps[i + 1];
    }
    LoopGap(runs, i);
    MarkAfterSkip(runs, ps[i], Hi(ps, i + 1, |runs|));
    MarkAfterInsert(runs, ps[i] - 1);
  }

  /** Once every marker is in, the whole run list is marked. */
  lemma SecondPassDone(runs: seq<Run>)
    ensures MarkAfter(runs, Hi(InsertPositions(runs), 0, |runs|)) == WithMarkers(runs)
  {
    LoopGap(runs, -1);
    MarkAfterSkip(runs, 0, Hi(InsertPositions(runs), 0, |runs|));
    var marked := WithMarkers(runs);
    assert runs[..0] == [] && runs[0..] == runs && [] + marked == marked;
  }

  // ---------------------------------------------------------------------
  // Properties
  // ---------------------------------------------------------------------

  /** A marker run never needs a marker of its own: it is unflagged and its text is plain. */
  lemma MarkerRunNeedsNone(markerText: string)
    requires markerText == "(SUP)" || markerText == "(SUB)"
    ensures !NeedsMarker(MarkerRun(markerText))
  {
    assert !IsSuperscriptOrSubscript(markerText[0]);
    assert forall i :: 0 <= i < |markerText| ==> markerText[i] < '\U{2070}';
  }

  /** Removes the run that follows every run needing a marker: the inverse of WithMarkers. */
  function Unmark(marked: seq<Run>): seq<Run>
    decreases |marked|
  {
    if marked == [] then []
    else if NeedsMarker(marked[0]) && |marked| > 1 then [marked[0]] + Unmark(marked[2..])
    else [marked[0]] + Unmark(marked[1..])
  }

  /** Removing the markers gives back the runs: nothing else is changed, dropped or reordered. */
  lemma {:induction false} UnmarkWithMarkers(runs: seq<Run>)
    ensures Unmark(WithMarkers(runs)) == runs
  {
    if runs != [] {
      UnmarkWithMarkers(runs[1..]);
      UnmarkStep(runs[0], WithMarkers(runs[1..]));
      assert runs == [runs[0]] + runs[1..];
    }
  }

  /** Unmark takes off one run and the marker after it, if it has one. */
  lemma UnmarkStep(r: Run, rest: seq<Run>)
    ensures Unmark([r] + MarkerAfter(r) + rest) == [r] + Unmark(rest)
  {
    var marked := [r] + MarkerAfter(r) + rest;
    if NeedsMarker(r) {
      assert marked[2..] == rest;
    } else {
      assert marked[1..] == rest;
    }
  }

  /** The markers added: one per run that needs one. */
  lemma {:induction false} WithMarkersLength(runs: seq<Run>)
    ensures |WithMarkers(runs)| == |runs| + |InsertPositions(runs)|
  {
    if runs != [] {
      var init, last := runs[..|runs| - 1], runs[|runs| - 1];
      WithMarkersLength(init);
      WithMarkersSnoc(init, last);
      assert runs == init + [last];
    }
  }

  lemma {:induction false} WithMarkersSnoc(runs: seq<Run>, last: Run)
    ensures WithMarkers(runs + [last]) == WithMarkers(runs) + [last] + MarkerAfter(last)
  {
    var all := runs + [last];
    if runs == [] {
      assert all == [last] && all[1..] == [];
    } else {
      WithMarkersSnoc(runs[1..], last);
      assert all[0] == runs[0] && all[1..] == runs[1..] + [last];
      var head, rest, tail := [runs[0]] + MarkerAfter(runs[0]), WithMarkers(runs[1..]), [last] + MarkerAfter(last);
      assert WithMarkers(all) == head + (rest + tail);
      assert WithMarkers(runs) == head + rest;
      Assoc(head, rest, tail);
      Assoc(head + rest, [last], MarkerAfter(last));
    }
  }

  /**
   * A run holding "x" and SUPERSCRIPT FOUR (U+2074) with no vertical
   * alignment gets "(SUB)": the marker follows the run's first character,
   * not the superscript character that made it need one.
   */
  lemma MarkerUsesFirstCharacter()
    ensures var run := Run(Some("x\U{2074}"), None);
      NeedsMarker(run) && MarkerText(run) == "(SUB)"
  {
    var text := "x\U{2074}";
    assert IsSuperscriptOrSubscript(text[1]);
    assert !IsSuperscriptChar(text[0]);
  }
}
