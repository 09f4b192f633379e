/**
 * The placeholder masker (maskFromRunInfos / maskUnicodeSuperSubscripts).
 *
 * Before a paragraph goes to the correction service, every piece of
 * superscript or subscript content is replaced by a token «SUPSUB_<n>»,
 * where n is the position of its PlaceholderInfo in a list that grows as
 * the runs are scanned left to right.  A run flagged superscript or
 * subscript becomes one placeholder; in any other run each maximal group
 * of U+2070..U+208F characters becomes one.
 *
 * The specification functions describe the masked text as a sequence of
 * Items (a copied character, or a reference to a placeholder index); the
 * text itself is Render(items).  The methods follow the Java code: a
 * placeholder list object shared by reference and appended to, and a
 * character loop that collects the current group.
 */
module Masking {
  import opened CharClass
  import opened JavaInt
  import opened Strings

  /** RunInfo: one run of the paragraph, with its text, vertical-alignment flags and formatting handle F. */
  datatype RunInfo<F> = RunInfo(text: string, isSuperscript: bool, isSubscript: bool, formatting: F)

  /** PlaceholderInfo: what a «SUPSUB_<n>» token stands for. */
  datatype PlaceholderInfo<F> = PlaceholderInfo(originalText: string, isSuperscript: bool, isSubscript: bool, formatting: F)

  /** One piece of the masked text: a character copied from a run, or the token of placeholder `index`. */
  datatype Item = Char(c: char) | Ref(index: nat)

  /** The masked text together with the placeholders it created. */
  datatype MaskResult<F> = MaskResult(items: seq<Item>, placeholders: seq<PlaceholderInfo<F>>)

  const TokenOpen: string := "«SUPSUB_"
  const TokenClose: char := '»'

  /** The token written for placeholder k. */
  function Token(k: nat): string {
    TokenOpen + Decimal(k) + [TokenClose]
  }

  function ItemText(it: Item): string {
    match it
    case Char(c) => [c]
    case Ref(k) => Token(k)
  }

  /** The masked text that a sequence of items stands for. */
  function Render(items: seq<Item>): string {
    if items == [] then [] else ItemText(items[0]) + Render(items[1..])
  }

  /**
   * The text obtained by putting back the original text of every
   * placeholder that exists in phs (a token for an index outside phs
   * stays as it is, as the restorer leaves it).
   */
  function Expand<F>(items: seq<Item>, phs: seq<PlaceholderInfo<F>>): string {
    if items == [] then [] else ItemExpansion(items[0], phs) + Expand(items[1..], phs)
  }

  /** What one item becomes when the placeholders phs are put back. */
  function ItemExpansion<F>(it: Item, phs: seq<PlaceholderInfo<F>>): string {
    match it
    case Char(c) => [c]
    case Ref(k) => if k < |phs| then phs[k].originalText else Token(k)
  }

  /** The placeholder indices referred to by items, in order. */
  function Refs(items: seq<Item>): seq<nat> {
    if items == [] then []
    else (if items[0].Ref? then [items[0].index] else []) + Refs(items[1..])
  }

  /** The concatenated text of all runs: the paragraph's original text. */
  function ConcatTexts<F>(runs: seq<RunInfo<F>>): string {
    if runs == [] then [] else runs[0].text + ConcatTexts(runs[1..])
  }

  /** The placeholder for a group of sup/sub characters, classified by the group's first character. */
  function GroupPlaceholder<F>(group: string, fmt: F): PlaceholderInfo<F>
    requires group != []
  {
    var isSuper := IsSuperscriptChar(group[0]);
    PlaceholderInfo(group, isSuper, !isSuper, fmt)
  }

  /** The length of the group of sup/sub characters at the start of s. */
  function GroupLength(s: string): (n: nat)
    ensures n <= |s|
    ensures s != [] && IsSuperscriptOrSubscript(s[0]) ==> n > 0
  {
    if s != [] && IsSuperscriptOrSubscript(s[0]) then 1 + GroupLength(s[1..]) else 0
  }

  /** GroupLength(s) characters of s are sup/sub characters, and the next one (if any) is not. */
  lemma {:induction false} GroupLengthSpec(s: string)
    ensures forall j :: 0 <= j < GroupLength(s) ==> IsSuperscriptOrSubscript(s[j])
    ensures GroupLength(s) < |s| ==> IsPlain(s[GroupLength(s)])
  {
    if s != [] && IsSuperscriptOrSubscript(s[0]) {
      GroupLengthSpec(s[1..]);
      forall j | 0 < j < GroupLength(s) ensures IsSuperscriptOrSubscript(s[j]) {
        assert s[j] == s[1..][j - 1];
      }
    }
  }

  /** A group of k sup/sub characters stopped by a plain character (or the end) is what GroupLength measures. */
  lemma {:induction false} GroupLengthExact(s: string, k: nat)
    requires k <= |s|
    requires forall j :: 0 <= j < k ==> IsSuperscriptOrSubscript(s[j])
    requires k == |s| || !IsSuperscriptOrSubscript(s[k])
    ensures GroupLength(s) == k
  {
    if k > 0 {
      GroupLengthExact(s[1..], k - 1);
    }
  }

  /** maskUnicodeSuperSubscripts on `text` when the list already holds `next` placeholders. */
  function MaskText<F>(text: string, next: nat, fmt: F): MaskResult<F>
    decreases |text|
  {
    if text == [] then MaskResult([], [])
    else if IsSuperscriptOrSubscript(text[0]) then
      var n := GroupLength(text);
      var rest := MaskText(text[n..], next + 1, fmt);
      MaskResult([Ref(next)] + rest.items, [GroupPlaceholder(text[..n], fmt)] + rest.placeholders)
    else
      var rest := MaskText(text[1..], next, fmt);
      MaskResult([Char(text[0])] + rest.items, rest.placeholders)
  }

  /** One iteration of the run loop of maskFromRunInfos. */
  function MaskRun<F>(run: RunInfo<F>, next: nat): MaskResult<F> {
    if run.isSuperscript || run.isSubscript then
      MaskResult([Ref(next)], [PlaceholderInfo(run.text, run.isSuperscript, run.isSubscript, run.formatting)])
    else
      MaskText(run.text, next, run.formatting)
  }

  /** maskFromRunInfos on `runs` when the list already holds `next` placeholders. */
  function MaskRuns<F>(runs: seq<RunInfo<F>>, next: nat): MaskResult<F>
    decreases |runs|
  {
    if runs == [] then MaskResult([], [])
    else
      var first := MaskRun(runs[0], next);
      var rest := MaskRuns(runs[1..], next + |first.placeholders|);
      MaskResult(first.items + rest.items, first.placeholders + rest.placeholders)
  }

  /** The paragraph-level masking: text and placeholder list, as TextWithPlaceholders holds them. */
  function Mask<F>(runs: seq<RunInfo<F>>): (string, seq<PlaceholderInfo<F>>) {
    var m := MaskRuns(runs, 0);
    (Render(m.items), m.placeholders)
  }

  // ---------------------------------------------------------------------
  // The imperative masker
  // ---------------------------------------------------------------------

  /** The List<PlaceholderInfo> that maskFromRunInfos creates and passes by reference. */
  class PlaceholderList<F> {
    var items: seq<PlaceholderInfo<F>>

    constructor ()
      ensures items == []
    {
      items := [];
    }

    /** List.add */
    method Add(p: PlaceholderInfo<F>)
      modifies this
      ensures items == old(items) + [p]
    {
      items := items + [p];
    }
  }

  /** The state of the character loop of maskUnicodeSuperSubscripts: text written, pending group, placeholders added. */
  datatype ScanState<F> = ScanState(masked: string, group: string, added: seq<PlaceholderInfo<F>>)

  /** Emitting the pending group, if any, as the placeholder numbered next + |added|. */
  function Flush<F>(st: ScanState<F>, next: nat, fmt: F): ScanState<F> {
    if st.group == [] then st
    else ScanState(st.masked + Token(next + |st.added|), [], st.added + [GroupPlaceholder(st.group, fmt)])
  }

  /** One iteration of the character loop. */
  function ScanStep<F>(st: ScanState<F>, c: char, next: nat, fmt: F): ScanState<F> {
    if IsSuperscriptOrSubscript(c) then st.(group := st.group + [c])
    else
      var f := Flush(st, next, fmt);
      f.(masked := f.masked + [c])
  }

  /** The loop state after the first i characters of text. */
  function ScanPrefix<F>(text: string, i: nat, next: nat, fmt: F): ScanState<F>
    requires i <= |text|
  {
    if i == 0 then ScanState([], [], []) else ScanStep(ScanPrefix(text, i - 1, next, fmt), text[i - 1], next, fmt)
  }

  /**
   * maskUnicodeSuperSubscripts: copies plain characters, collects each
   * group of sup/sub characters and replaces it by a new placeholder's
   * token, appending the placeholder to the shared list.
   */
  method MaskUnicodeSuperSubscripts<F>(text: string, placeholders: PlaceholderList<F>, formatting: F) returns (masked: string)
    modifies placeholders
    ensures masked == Render(MaskText(text, |old(placeholders.items)|, formatting).items)
    ensures placeholders.items == old(placeholders.items) + MaskText(text, |old(placeholders.items)|, formatting).placeholders
  {
    ghost var before := placeholders.items;
    ghost var next := |before|;
    masked := [];
    var currentGroup: string := [];
    var i := 0;
    while i < |text|
      invariant i <= |text|
      invariant masked == ScanPrefix(text, i, next, formatting).masked
      invariant currentGroup == ScanPrefix(text, i, next, formatting).group
      invariant placeholders.items == before + ScanPrefix(text, i, next, formatting).added
    {
      var c := text[i];
      if IsSuperscriptOrSubscript(c) {
        currentGroup := currentGroup + [c];
      } else {
        if |currentGroup| > 0 {
          var n := |placeholders.items|;
          placeholders.Add(GroupPlaceholder(currentGroup, formatting));
          masked := masked + Token(n);
          currentGroup := [];
        }
        masked := masked + [c];
      }
      i := i + 1;
    }
    if |currentGroup| > 0 {
      var n := |placeholders.items|;
      placeholders.Add(GroupPlaceholder(currentGroup, formatting));
      masked := masked + Token(n);
    }
    ScanAgrees(text, next, formatting);
  }

  /** What the loop state after i characters means in terms of MaskText (see ScanPrefixMeaning). */
  ghost predicate ScanMeaning<F>(text: string, i: nat, st: ScanState<F>, next: nat, fmt: F)
    requires i <= |text|
  {
    && |st.group| <= i
    && st.group == text[i - |st.group|..i]
    && (forall j :: i - |st.group| <= j < i ==> IsSuperscriptOrSubscript(text[j]))
    && (i == |st.group| || IsPlain(text[i - |st.group| - 1]))
    && st.masked == Render(MaskText(text[..i - |st.group|], next, fmt).items)
    && st.added == MaskText(text[..i - |st.group|], next, fmt).placeholders
  }

  /**
   * After i characters the loop has masked text[..start] exactly as
   * MaskText does, where text[start..i] is the pending group: a run of
   * sup/sub characters preceded by a plain character or the start.
   */
  lemma {:induction false} ScanPrefixMeaning<F>(text: string, i: nat, next: nat, fmt: F)
    requires i <= |text|
    ensures ScanMeaning(text, i, ScanPrefix(text, i, next, fmt), next, fmt)
  {
    if i == 0 {
      assert text[..0] == [];
    } else {
      ScanPrefixMeaning(text, i - 1, next, fmt);
      var st := ScanPrefix(text, i - 1, next, fmt);
      if IsSuperscriptOrSubscript(text[i - 1]) {
        ScanMeaningSup(text, i, st, next, fmt);
      } else {
        ScanMeaningPlain(text, i, st, next, fmt);
      }
    }
  }

  /** A sup/sub character extends the pending group. */
  lemma ScanMeaningSup<F>(text: string, i: nat, st: ScanState<F>, next: nat, fmt: F)
    requires 0 < i <= |text| && IsSuperscriptOrSubscript(text[i - 1])
    requires ScanMeaning(text, i - 1, st, next, fmt)
    ensures ScanMeaning(text, i, ScanStep(st, text[i - 1], next, fmt), next, fmt)
  {
    var start := i - 1 - |st.group|;
    var st' := ScanStep(st, text[i - 1], next, fmt);
    SliceSnocEnd(text, start, i);
    ScanMeaningIntro(text, i, st', next, fmt, start);
  }

  /** ScanMeaning, established from its parts with the start of the pending group named. */
  lemma ScanMeaningIntro<F>(text: string, i: nat, st: ScanState<F>, next: nat, fmt: F, start: nat)
    requires start <= i <= |text| && start == i - |st.group|
    requires st.group == text[start..i]
    requires forall j :: start <= j < i ==> IsSuperscriptOrSubscript(text[j])
    requires start == 0 || IsPlain(text[start - 1])
    requires st.masked == Render(MaskText(text[..start], next, fmt).items)
    requires st.added == MaskText(text[..start], next, fmt).placeholders
    ensures ScanMeaning(text, i, st, next, fmt)
  {
  }

  /** A plain character flushes the pending group and is copied. */
  lemma ScanMeaningPlain<F>(text: string, i: nat, st: ScanState<F>, next: nat, fmt: F)
    requires 0 < i <= |text| && IsPlain(text[i - 1])
    requires ScanMeaning(text, i - 1, st, next, fmt)
    ensures ScanMeaning(text, i, ScanStep(st, text[i - 1], next, fmt), next, fmt)
  {
    var c := text[i - 1];
    var st' := ScanStep(st, c, next, fmt);
    assert st'.group == [] && st'.masked == Render(MaskText(text[..i], next, fmt).items)
           && st'.added == MaskText(text[..i], next, fmt).placeholders by {
      var f := Flush(st, next, fmt);
      FlushMeaning(text, i - 1, st, next, fmt);
      MaskPrefixChar(text, i, next, fmt);
      assert st' == ScanState(f.masked + [c], [], f.added);
    }
    EmptyGroupMeaning(text, i, st', next, fmt);
  }

  /** A state with no pending group means that text[..i] has been masked exactly as MaskText does. */
  lemma EmptyGroupMeaning<F>(text: string, i: nat, st: ScanState<F>, next: nat, fmt: F)
    requires 0 < i <= |text| && IsPlain(text[i - 1])
    requires st.group == [] && st.masked == Render(MaskText(text[..i], next, fmt).items)
    requires st.added == MaskText(text[..i], next, fmt).placeholders
    ensures ScanMeaning(text, i, st, next, fmt)
  {
    assert text[i..i] == [];
    assert i - |st.group| == i;
  }

  /** At the end of the text or before a plain character, flushing leaves exactly MaskText of the prefix read so far. */
  lemma FlushMeaning<F>(text: string, i: nat, st: ScanState<F>, next: nat, fmt: F)
    requires i <= |text| && (i == |text| || IsPlain(text[i]))
    requires ScanMeaning(text, i, st, next, fmt)
    ensures Flush(st, next, fmt).group == []
    ensures Flush(st, next, fmt).masked == Render(MaskText(text[..i], next, fmt).items)
    ensures Flush(st, next, fmt).added == MaskText(text[..i], next, fmt).placeholders
  {
    if st.group != [] {
      MaskPrefixGroup(text, i - |st.group|, i, next, fmt, MaskText(text[..i - |st.group|], next, fmt));
    } else {
      assert i - |st.group| == i;
    }
  }

  /** Flushing the final state of the character loop gives MaskText's result. */
  lemma ScanAgrees<F>(text: string, next: nat, fmt: F)
    ensures Flush(ScanPrefix(text, |text|, next, fmt), next, fmt).masked == Render(MaskText(text, next, fmt).items)
    ensures Flush(ScanPrefix(text, |text|, next, fmt), next, fmt).added == MaskText(text, next, fmt).placeholders
  {
    ScanPrefixMeaning(text, |text|, next, fmt);
    FlushMeaning(text, |text|, ScanPrefix(text, |text|, next, fmt), next, fmt);
    assert text[..|text|] == text;
  }

  lemma SliceSnocEnd(s: string, a: nat, b: nat)
    requires a < b <= |s|
    ensures s[a..b] == s[a..b - 1] + [s[b - 1]]
  {
  }

  lemma SliceSnoc(s: string, a: nat, b: nat)
    requires a <= b < |s|
    ensures s[a..b + 1] == s[a..b] + [s[b]]
  {
  }

  /**
   * Masking is compositional: the masking of a + b is the masking of a
   * followed by the masking of b (numbered after a's placeholders), as
   * long as the cut does not fall inside a group of sup/sub characters.
   */
  lemma {:induction false} MaskTextSplit<F>(a: string, b: string, next: nat, fmt: F)
    requires a == [] || b == [] || IsPlain(a[|a| - 1]) || IsPlain(b[0])
    ensures SplitsAt(a, b, next, fmt)
    decreases |a|
  {
    if a == [] {
      assert a + b == b;
    } else if IsSuperscriptOrSubscript(a[0]) {
      var n := GroupLength(a);
      assert n < |a| ==> a[n..][|a[n..]| - 1] == a[|a| - 1];
      MaskTextSplit(a[n..], b, next + 1, fmt);
      SplitGroupCase(a, b, next, fmt);
    } else {
      assert |a| > 1 ==> a[1..][|a[1..]| - 1] == a[|a| - 1];
      MaskTextSplit(a[1..], b, next, fmt);
      SplitPlainCase(a, b, next, fmt);
    }
  }

  /** The masking of a + b is the masking of a followed by the masking of b, numbered after a's placeholders. */
  ghost predicate SplitsAt<F>(a: string, b: string, next: nat, fmt: F) {
    && MaskText(a + b, next, fmt).items
       == MaskText(a, next, fmt).items + MaskText(b, next + |MaskText(a, next, fmt).placeholders|, fmt).items
    && MaskText(a + b, next, fmt).placeholders
       == MaskText(a, next, fmt).placeholders + MaskText(b, next + |MaskText(a, next, fmt).placeholders|, fmt).placeholders
  }

  lemma SplitGroupCase<F>(a: string, b: string, next: nat, fmt: F)
    requires a != [] && IsSuperscriptOrSubscript(a[0])
    requires b == [] || IsPlain(a[|a| - 1]) || IsPlain(b[0])
    requires MaskText(a[GroupLength(a)..] + b, next + 1, fmt).items
             == MaskText(a[GroupLength(a)..], next + 1, fmt).items
                + MaskText(b, next + 1 + |MaskText(a[GroupLength(a)..], next + 1, fmt).placeholders|, fmt).items
    requires MaskText(a[GroupLength(a)..] + b, next + 1, fmt).placeholders
             == MaskText(a[GroupLength(a)..], next + 1, fmt).placeholders
                + MaskText(b, next + 1 + |MaskText(a[GroupLength(a)..], next + 1, fmt).placeholders|, fmt).placeholders
    ensures MaskText(a + b, next, fmt).items
            == MaskText(a, next, fmt).items + MaskText(b, next + |MaskText(a, next, fmt).placeholders|, fmt).items
    ensures MaskText(a + b, next, fmt).placeholders
            == MaskText(a, next, fmt).placeholders + MaskText(b, next + |MaskText(a, next, fmt).placeholders|, fmt).placeholders
  {
    var n := GroupLength(a);
    var tail := a[n..];
    var ph := GroupPlaceholder(a[..n], fmt);
    MaskTextGroupUnfold(a, next, fmt);
    MaskAppendGroupUnfold(a, b, next, fmt);
    var ra := MaskText(tail, next + 1, fmt);
    var rb := MaskText(b, next + 1 + |ra.placeholders|, fmt);
    Assoc([Ref(next)], ra.items, rb.items);
    Assoc([ph], ra.placeholders, rb.placeholders);
  }

  /** MaskText on a text that starts with a plain character: the character, then the masking of the rest. */
  lemma MaskTextPlainUnfold<F>(t: string, next: nat, fmt: F)
    requires t != [] && IsPlain(t[0])
    ensures MaskText(t, next, fmt) == MaskResult([Char(t[0])] + MaskText(t[1..], next, fmt).items, MaskText(t[1..], next, fmt).placeholders)
  {
  }

  /** MaskText on a + b where a starts with a group that the cut does not split: one token, then the masking of the rest of a, then b. */
  lemma MaskAppendGroupUnfold<F>(a: string, b: string, next: nat, fmt: F)
    requires a != [] && IsSuperscriptOrSubscript(a[0])
    requires b == [] || IsPlain(a[|a| - 1]) || IsPlain(b[0])
    ensures MaskText(a + b, next, fmt).items == [Ref(next)] + MaskText(a[GroupLength(a)..] + b, next + 1, fmt).items
    ensures MaskText(a + b, next, fmt).placeholders
            == [GroupPlaceholder(a[..GroupLength(a)], fmt)] + MaskText(a[GroupLength(a)..] + b, next + 1, fmt).placeholders
  {
    GroupLengthAppend(a, b);
    MaskTextGroupUnfold(a + b, next, fmt);
  }

  /** The group at the start of a is also the group at the start of a + b when the cut does not fall inside a group. */
  lemma GroupLengthAppend(a: string, b: string)
    requires a != [] && IsSuperscriptOrSubscript(a[0])
    requires b == [] || IsPlain(a[|a| - 1]) || IsPlain(b[0])
    ensures GroupLength(a + b) == GroupLength(a)
    ensures (a + b)[..GroupLength(a)] == a[..GroupLength(a)]
    ensures (a + b)[GroupLength(a)..] == a[GroupLength(a)..] + b
  {
    var n := GroupLength(a);
    GroupLengthSpec(a);
    GroupAppend(a, b, n);
    AppendSlices(a, b, n);
  }

  lemma GroupAppend(a: string, b: string, n: nat)
    requires n <= |a|
    requires forall j :: 0 <= j < n ==> IsSuperscriptOrSubscript(a[j])
    requires n < |a| ==> IsPlain(a[n])
    requires n == |a| ==> b == [] || IsPlain(b[0])
    ensures GroupLength(a + b) == n
  {
    var ab := a + b;
    forall j | 0 <= j < n ensures IsSuperscriptOrSubscript(ab[j]) {
      assert ab[j] == a[j];
    }
    if n < |a| {
      assert ab[n] == a[n];
    } else if b != [] {
      assert ab[n] == b[0];
    }
    GroupLengthExact(ab, n);
  }

  lemma AppendSlices<T>(a: seq<T>, b: seq<T>, n: nat)
    requires n <= |a|
    ensures (a + b)[..n] == a[..n]
    ensures (a + b)[n..] == a[n..] + b
  {
  }

  /** MaskTextGroupUnfold, stated on the masking of the rest as a value. */
  lemma MaskTextGroupCons<F>(t: string, next: nat, fmt: F, rest: MaskResult<F>)
    requires t != [] && IsSuperscriptOrSubscript(t[0])
    requires rest == MaskText(t[GroupLength(t)..], next + 1, fmt)
    ensures MaskText(t, next, fmt) == MaskResult([Ref(next)] + rest.items, [GroupPlaceholder(t[..GroupLength(t)], fmt)] + rest.placeholders)
  {
  }

  /** MaskTextPlainUnfold, stated on the masking of the rest as a value. */
  lemma MaskTextPlainCons<F>(t: string, next: nat, fmt: F, rest: MaskResult<F>)
    requires t != [] && IsPlain(t[0])
    requires rest == MaskText(t[1..], next, fmt)
    ensures MaskText(t, next, fmt) == MaskResult([Char(t[0])] + rest.items, rest.placeholders)
  {
  }

  /** MaskText on a text that starts with a group: one token, then the masking of what follows the group. */
  lemma MaskTextGroupUnfold<F>(t: string, next: nat, fmt: F)
    requires t != [] && IsSuperscriptOrSubscript(t[0])
    ensures MaskText(t, next, fmt).items == [Ref(next)] + MaskText(t[GroupLength(t)..], next + 1, fmt).items
    ensures MaskText(t, next, fmt).placeholders
            == [GroupPlaceholder(t[..GroupLength(t)], fmt)] + MaskText(t[GroupLength(t)..], next + 1, fmt).placeholders
  {
  }

  lemma SplitPlainCase<F>(a: string, b: string, next: nat, fmt: F)
    requires a != [] && IsPlain(a[0])
    requires SplitsAt(a[1..], b, next, fmt)
    ensures SplitsAt(a, b, next, fmt)
  {
    var ab := a + b;
    assert ab[0] == a[0];
    assert ab[1..] == a[1..] + b;
    var ra := MaskText(a[1..], next, fmt);
    var rb := MaskText(b, next + |ra.placeholders|, fmt);
    Assoc([Char(a[0])], ra.items, rb.items);
  }

  /**
   * The loop step that emits the pending group text[start..i] (followed by
   * a plain character or the end): the masking of text[..i] is that of
   * text[..start] followed by one token and one new placeholder.
   */
  lemma MaskPrefixGroup<F>(text: string, start: nat, i: nat, next: nat, fmt: F, mp: MaskResult<F>)
    requires start < i <= |text|
    requires forall j :: start <= j < i ==> IsSuperscriptOrSubscript(text[j])
    requires start == 0 || IsPlain(text[start - 1])
    requires mp == MaskText(text[..start], next, fmt)
    ensures Render(MaskText(text[..i], next, fmt).items) == Render(mp.items) + Token(next + |mp.placeholders|)
    ensures MaskText(text[..i], next, fmt).placeholders == mp.placeholders + [GroupPlaceholder(text[start..i], fmt)]
  {
    var pre := text[..start];
    var group := text[start..i];
    var k := next + |mp.placeholders|;
    assert pre + group == text[..i];
    assert start > 0 ==> pre[|pre| - 1] == text[start - 1];
    forall j | 0 <= j < |group| ensures IsSuperscriptOrSubscript(group[j]) {
      assert group[j] == text[start + j];
    }
    MaskTextOfGroup(group, k, fmt);
    MaskTextSplitTo(pre, group, next, fmt, mp, MaskResult([Ref(k)], [GroupPlaceholder(group, fmt)]));
    RenderAppend(mp.items, [Ref(k)]);
    RenderRef(k);
  }

  /** A text that is one group of sup/sub characters becomes one token. */
  lemma MaskTextOfGroup<F>(group: string, k: nat, fmt: F)
    requires group != []
    requires forall j :: 0 <= j < |group| ==> IsSuperscriptOrSubscript(group[j])
    ensures MaskText(group, k, fmt) == MaskResult([Ref(k)], [GroupPlaceholder(group, fmt)])
  {
    GroupLengthExact(group, |group|);
    assert group[|group|..] == [];
    assert group[..|group|] == group;
  }

  /** A text that is one plain character is copied. */
  lemma MaskTextOfChar<F>(c: char, k: nat, fmt: F)
    requires IsPlain(c)
    ensures MaskText([c], k, fmt) == MaskResult([Char(c)], [])
  {
    assert [c][1..] == [];
  }

  /** The loop step that copies the plain character text[i - 1]. */
  lemma MaskPrefixChar<F>(text: string, i: nat, next: nat, fmt: F)
    requires 0 < i <= |text| && IsPlain(text[i - 1])
    ensures Render(MaskText(text[..i], next, fmt).items) == Render(MaskText(text[..i - 1], next, fmt).items) + [text[i - 1]]
    ensures MaskText(text[..i], next, fmt).placeholders == MaskText(text[..i - 1], next, fmt).placeholders
  {
    var pre := text[..i - 1];
    var mp := MaskText(pre, next, fmt);
    var k := next + |mp.placeholders|;
    assert pre + [text[i - 1]] == text[..i];
    MaskTextOfChar(text[i - 1], k, fmt);
    MaskTextSplitTo(pre, [text[i - 1]], next, fmt, mp, MaskResult([Char(text[i - 1])], []));
    RenderAppend(mp.items, [Char(text[i - 1])]);
    RenderChar(text[i - 1]);
    assert mp.placeholders + [] == mp.placeholders;
  }

  /** MaskTextSplit, stated on the two masked halves as values. */
  lemma MaskTextSplitTo<F>(a: string, b: string, next: nat, fmt: F, ma: MaskResult<F>, mb: MaskResult<F>)
    requires a == [] || b == [] || IsPlain(a[|a| - 1]) || IsPlain(b[0])
    requires ma == MaskText(a, next, fmt) && mb == MaskText(b, next + |ma.placeholders|, fmt)
    ensures MaskText(a + b, next, fmt) == MaskResult(ma.items + mb.items, ma.placeholders + mb.placeholders)
  {
    MaskTextSplit(a, b, next, fmt);
  }

  /**
   * maskFromRunInfos: masks every run in order into one text, sharing one
   * placeholder list, and returns the text with a copy of the list.
   */
  method MaskFromRunInfos<F>(runInfos: seq<RunInfo<F>>) returns (maskedText: string, placeholders: seq<PlaceholderInfo<F>>)
    ensures (maskedText, placeholders) == Mask(runInfos)
  {
    var list := new PlaceholderList<F>();
    var masked: string := [];
    for k := 0 to |runInfos|
      invariant masked == Render(MaskRuns(runInfos[..k], 0).items)
      invariant list.items == MaskRuns(runInfos[..k], 0).placeholders
    {
      var info := runInfos[k];
      MaskRunsSnoc(runInfos, k);
      if info.isSuperscript || info.isSubscript {
        var n := |list.items|;
        list.Add(PlaceholderInfo(info.text, info.isSuperscript, info.isSubscript, info.formatting));
        RenderRef(n);
        masked := masked + Token(n);
      } else {
        var part := MaskUnicodeSuperSubscripts(info.text, list, info.formatting);
        masked := masked + part;
      }
    }
    assert runInfos[..|runInfos|] == runInfos;
    maskedText := masked;
    placeholders := list.items;
  }

  /** MaskRuns is compositional over the run list. */
  lemma {:induction false} MaskRunsAppend<F>(a: seq<RunInfo<F>>, b: seq<RunInfo<F>>, next: nat)
    ensures MaskRuns(a + b, next).items == MaskRuns(a, next).items + MaskRuns(b, next + |MaskRuns(a, next).placeholders|).items
    ensures MaskRuns(a + b, next).placeholders
            == MaskRuns(a, next).placeholders + MaskRuns(b, next + |MaskRuns(a, next).placeholders|).placeholders
    decreases |a|
  {
    if a == [] {
      RunsAppendNil(a, b, next);
    } else {
      MaskRunsAppend(a[1..], b, next + |MaskRun(a[0], next).placeholders|);
      RunsAppendCase(a, b, next);
    }
  }

  lemma RunsAppendNil<F>(a: seq<RunInfo<F>>, b: seq<RunInfo<F>>, next: nat)
    requires a == []
    ensures MaskRuns(a + b, next).items == MaskRuns(a, next).items + MaskRuns(b, next + |MaskRuns(a, next).placeholders|).items
    ensures MaskRuns(a + b, next).placeholders
            == MaskRuns(a, next).placeholders + MaskRuns(b, next + |MaskRuns(a, next).placeholders|).placeholders
  {
    assert a + b == b;
  }

  lemma RunsAppendCase<F>(a: seq<RunInfo<F>>, b: seq<RunInfo<F>>, next: nat)
    requires a != []
    requires MaskRuns(a[1..] + b, next + |MaskRun(a[0], next).placeholders|).items
             == MaskRuns(a[1..], next + |MaskRun(a[0], next).placeholders|).items
                + MaskRuns(b, next + |MaskRun(a[0], next).placeholders| + |MaskRuns(a[1..], next + |MaskRun(a[0], next).placeholders|).placeholders|).items
    requires MaskRuns(a[1..] + b, next + |MaskRun(a[0], next).placeholders|).placeholders
             == MaskRuns(a[1..], next + |MaskRun(a[0], next).placeholders|).placeholders
                + MaskRuns(b, next + |MaskRun(a[0], next).placeholders| + |MaskRuns(a[1..], next + |MaskRun(a[0], next).placeholders|).placeholders|).placeholders
    ensures MaskRuns(a + b, next).items == MaskRuns(a, next).items + MaskRuns(b, next + |MaskRuns(a, next).placeholders|).items
    ensures MaskRuns(a + b, next).placeholders
            == MaskRuns(a, next).placeholders + MaskRuns(b, next + |MaskRuns(a, next).placeholders|).placeholders
  {
    var first := MaskRun(a[0], next);
    var k := next + |first.placeholders|;
    var ra := MaskRuns(a[1..], k);
    var rb := MaskRuns(b, k + |ra.placeholders|);
    var rab := MaskRuns(a[1..] + b, k);
    AppendSlices(a, b, 1);
    assert (a + b)[0] == a[0];
    MaskRunsCons(a + b, next, first, rab);
    MaskRunsCons(a, next, first, ra);
    assert next + |MaskRuns(a, next).placeholders| == k + |ra.placeholders|;
    Assoc(first.items, ra.items, rb.items);
    Assoc(first.placeholders, ra.placeholders, rb.placeholders);
  }

  /** The loop step of maskFromRunInfos: masking one more run appends its items and placeholders. */
  lemma MaskRunsSnoc<F>(runs: seq<RunInfo<F>>, k: nat)
    requires k < |runs|
    ensures Render(MaskRuns(runs[..k + 1], 0).items)
            == Render(MaskRuns(runs[..k], 0).items) + Render(MaskRun(runs[k], |MaskRuns(runs[..k], 0).placeholders|).items)
    ensures MaskRuns(runs[..k + 1], 0).placeholders
            == MaskRuns(runs[..k], 0).placeholders + MaskRun(runs[k], |MaskRuns(runs[..k], 0).placeholders|).placeholders
  {
    var pre := runs[..k];
    var mp := MaskRuns(pre, 0);
    var mr := MaskRun(runs[k], |mp.placeholders|);
    assert MaskRuns(runs[..k + 1], 0) == MaskResult(mp.items + mr.items, mp.placeholders + mr.placeholders) by {
      assert pre + [runs[k]] == runs[..k + 1];
      MaskRunsAppend(pre, [runs[k]], 0);
      MaskRunsSingle(runs[k], |mp.placeholders|);
    }
    RenderAppend(mp.items, mr.items);
  }

  /** MaskRuns on a non-empty run list: the first run's masking, then the rest numbered after it. */
  lemma MaskRunsUnfold<F>(runs: seq<RunInfo<F>>, next: nat)
    requires runs != []
    ensures MaskRuns(runs, next).items
            == MaskRun(runs[0], next).items + MaskRuns(runs[1..], next + |MaskRun(runs[0], next).placeholders|).items
    ensures MaskRuns(runs, next).placeholders
            == MaskRun(runs[0], next).placeholders + MaskRuns(runs[1..], next + |MaskRun(runs[0], next).placeholders|).placeholders
  {
  }

  lemma MaskRunsSingle<F>(run: RunInfo<F>, next: nat)
    ensures MaskRuns([run], next) == MaskRun(run, next)
  {
    assert [run][1..] == [];
    assert MaskRun(run, next).items + [] == MaskRun(run, next).items;
    assert MaskRun(run, next).placeholders + [] == MaskRun(run, next).placeholders;
  }

  /** The masked text of a flagged run is the token alone. */
  lemma RenderRef(k: nat)
    ensures Render([Ref(k)]) == Token(k)
  {
    assert [Ref(k)][1..] == [];
  }

  lemma RenderChar(c: char)
    ensures Render([Char(c)]) == [c]
  {
    assert [Char(c)][1..] == [];
  }

  // ---------------------------------------------------------------------
  // Properties of the masking
  // ---------------------------------------------------------------------

  lemma {:induction false} RenderAppend(a: seq<Item>, b: seq<Item>)
    ensures Render(a + b) == Render(a) + Render(b)
  {
    if a == [] {
      assert a + b == b;
    } else {
      assert (a + b)[1..] == a[1..] + b;
      RenderAppend(a[1..], b);
    }
  }

  lemma {:induction false} ExpandAppend<F>(a: seq<Item>, b: seq<Item>, phs: seq<PlaceholderInfo<F>>)
    ensures Expand(a + b, phs) == Expand(a, phs) + Expand(b, phs)
  {
    if a == [] {
      assert a + b == b;
    } else {
      assert (a + b)[1..] == a[1..] + b;
      ExpandAppend(a[1..], b, phs);
    }
  }

  lemma {:induction false} RefsAppend(a: seq<Item>, b: seq<Item>)
    ensures Refs(a + b) == Refs(a) + Refs(b)
  {
    if a == [] {
      assert a + b == b;
    } else {
      var head := if a[0].Ref? then [a[0].index] else [];
      assert (a + b)[0] == a[0];
      assert (a + b)[1..] == a[1..] + b;
      RefsAppend(a[1..], b);
      assert Refs(a + b) == head + (Refs(a[1..]) + Refs(b));
      Assoc(head, Refs(a[1..]), Refs(b));
    }
  }

  /** The tokens in items carry the indices next, next+1, ..., next+count-1, in this order. */
  ghost predicate NumberedFrom(items: seq<Item>, next: nat, count: nat) {
    Refs(items) == seq(count, j => next + j)
  }

  /** No token directly follows another: each group of sup/sub characters became one placeholder. */
  ghost predicate NoAdjacentTokens(items: seq<Item>) {
    forall k :: 0 <= k < |items| - 1 ==> !(items[k].Ref? && items[k + 1].Ref?)
  }

  /** Every copied character is a character of text. */
  ghost predicate CharsFrom(items: seq<Item>, text: string) {
    forall k :: 0 <= k < |items| && items[k].Char? ==> items[k].c in text
  }

  /** No copied character is a sup/sub character. */
  ghost predicate CharsPlain(items: seq<Item>) {
    forall k :: 0 <= k < |items| && items[k].Char? ==> IsPlain(items[k].c)
  }

  /** What a placeholder made from a group of Unicode sup/sub characters looks like. */
  ghost predicate IsGroupPlaceholder<F>(p: PlaceholderInfo<F>, fmt: F) {
    && p.originalText != []
    && (forall j :: 0 <= j < |p.originalText| ==> IsSuperscriptOrSubscript(p.originalText[j]))
    && p.isSuperscript == IsSuperscriptChar(p.originalText[0])
    && p.isSubscript == !p.isSuperscript
    && p.formatting == fmt
  }

  ghost predicate GroupPlaceholders<F>(phs: seq<PlaceholderInfo<F>>, fmt: F) {
    forall j :: 0 <= j < |phs| ==> IsGroupPlaceholder(phs[j], fmt)
  }

  /** The tokens of a masked text carry the consecutive indices next, next+1, ... */
  lemma {:induction false} MaskTextRefs<F>(text: string, next: nat, fmt: F)
    ensures NumberedFrom(MaskText(text, next, fmt).items, next, |MaskText(text, next, fmt).placeholders|)
    decreases |text|
  {
    var m := MaskText(text, next, fmt);
    if text == [] {
    } else if IsSuperscriptOrSubscript(text[0]) {
      var group := text[..GroupLength(text)];
      var rest := MaskText(text[|group|..], next + 1, fmt);
      MaskTextRefs(text[|group|..], next + 1, fmt);
      assert m.items[1..] == rest.items;
      assert Refs(m.items) == [next] + Refs(rest.items);
    } else {
      var rest := MaskText(text[1..], next, fmt);
      MaskTextRefs(text[1..], next, fmt);
      assert m.items[1..] == rest.items;
    }
  }

  /** Every placeholder of an unflagged run is a non-empty group of sup/sub characters, classified by its first character. */
  lemma {:induction false} MaskTextPlaceholders<F>(text: string, next: nat, fmt: F)
    ensures GroupPlaceholders(MaskText(text, next, fmt).placeholders, fmt)
    decreases |text|
  {
    if text != [] {
      var m := MaskText(text, next, fmt);
      if IsSuperscriptOrSubscript(text[0]) {
        var group := text[..GroupLength(text)];
        var rest := MaskText(text[|group|..], next + 1, fmt);
        GroupLengthSpec(text);
        MaskTextPlaceholders(text[|group|..], next + 1, fmt);
        assert m.placeholders == [GroupPlaceholder(group, fmt)] + rest.placeholders;
      } else {
        MaskTextPlaceholders(text[1..], next, fmt);
      }
    }
  }

  /** Copied characters are the plain characters of the text, and no two tokens are adjacent (groups are maximal). */
  lemma {:induction false} MaskTextItems<F>(text: string, next: nat, fmt: F)
    ensures NoAdjacentTokens(MaskText(text, next, fmt).items)
    ensures CharsPlain(MaskText(text, next, fmt).items)
    ensures CharsFrom(MaskText(text, next, fmt).items, text)
    decreases |text|
  {
    var m := MaskText(text, next, fmt);
    if text == [] {
    } else if IsSuperscriptOrSubscript(text[0]) {
      var group := text[..GroupLength(text)];
      var tail := text[|group|..];
      var rest := MaskText(tail, next + 1, fmt);
      GroupLengthSpec(text);
      MaskTextItems(tail, next + 1, fmt);
      assert m.items == [Ref(next)] + rest.items;
      if |rest.items| > 0 {
        // The character after a group is plain, so a token is never followed by a token.
        assert |tail| > 0 && !IsSuperscriptOrSubscript(tail[0]);
        assert rest.items[0].Char?;
      }
      forall k | 0 <= k < |m.items| && m.items[k].Char?
        ensures IsPlain(m.items[k].c) && m.items[k].c in text
      {
        assert m.items[k] == rest.items[k - 1];
        var j :| 0 <= j < |tail| && tail[j] == m.items[k].c;
        assert text[|group| + j] == tail[j];
      }
    } else {
      var rest := MaskText(text[1..], next, fmt);
      MaskTextItems(text[1..], next, fmt);
      assert m.items == [Char(text[0])] + rest.items;
      forall k | 0 <= k < |m.items| && m.items[k].Char?
        ensures IsPlain(m.items[k].c) && m.items[k].c in text
      {
        if k > 0 {
          assert m.items[k] == rest.items[k - 1];
          var j :| 0 <= j < |text[1..]| && text[1..][j] == m.items[k].c;
          assert text[1 + j] == text[1..][j];
        }
      }
    }
  }

  /** Putting the new placeholders back (after `before`, the ones already in the list) gives the text again. */
  lemma {:induction false} MaskTextExpand<F>(text: string, next: nat, fmt: F, before: seq<PlaceholderInfo<F>>)
    requires |before| == next
    ensures Expand(MaskText(text, next, fmt).items, before + MaskText(text, next, fmt).placeholders) == text
    decreases |text|
  {
    if text == [] {
    } else if IsSuperscriptOrSubscript(text[0]) {
      var n := GroupLength(text);
      MaskTextExpand(text[n..], next + 1, fmt, before + [GroupPlaceholder(text[..n], fmt)]);
      ExpandGroupCase(text, next, fmt, before, MaskText(text[n..], next + 1, fmt));
    } else {
      MaskTextExpand(text[1..], next, fmt, before);
      ExpandPlainCase(text, next, fmt, before, MaskText(text[1..], next, fmt));
    }
  }

  lemma ExpandGroupCase<F>(text: string, next: nat, fmt: F, before: seq<PlaceholderInfo<F>>, rest: MaskResult<F>)
    requires |before| == next && text != [] && IsSuperscriptOrSubscript(text[0])
    requires rest == MaskText(text[GroupLength(text)..], next + 1, fmt)
    requires Expand(rest.items, before + [GroupPlaceholder(text[..GroupLength(text)], fmt)] + rest.placeholders)
             == text[GroupLength(text)..]
    ensures Expand(MaskText(text, next, fmt).items, before + MaskText(text, next, fmt).placeholders) == text
  {
    var n := GroupLength(text);
    var ph := GroupPlaceholder(text[..n], fmt);
    assert ph.originalText + text[n..] == text by {
      assert text[..n] + text[n..] == text;
    }
    MaskTextGroupCons(text, next, fmt, rest);
    ExpandRefStep(before, ph, rest.items, rest.placeholders);
  }

  /** Putting back a token for the placeholder right after `before`, then the rest. */
  lemma ExpandRefStep<F>(before: seq<PlaceholderInfo<F>>, ph: PlaceholderInfo<F>, items: seq<Item>, phs: seq<PlaceholderInfo<F>>)
    ensures Expand([Ref(|before|)] + items, before + ([ph] + phs)) == ph.originalText + Expand(items, before + [ph] + phs)
  {
    var all := before + ([ph] + phs);
    Assoc(before, [ph], phs);
    ExpandCons(Ref(|before|), items, all);
    assert all[|before|] == ph;
  }

  lemma ExpandPlainCase<F>(text: string, next: nat, fmt: F, before: seq<PlaceholderInfo<F>>, rest: MaskResult<F>)
    requires |before| == next && text != [] && IsPlain(text[0])
    requires rest == MaskText(text[1..], next, fmt)
    requires Expand(rest.items, before + rest.placeholders) == text[1..]
    ensures Expand(MaskText(text, next, fmt).items, before + MaskText(text, next, fmt).placeholders) == text
  {
    MaskTextPlainCons(text, next, fmt, rest);
    ExpandCons(Char(text[0]), rest.items, before + rest.placeholders);
    assert [text[0]] + text[1..] == text;
  }

  /** Expanding a sequence that starts with `it`. */
  lemma ExpandCons<F>(it: Item, items: seq<Item>, phs: seq<PlaceholderInfo<F>>)
    ensures Expand([it] + items, phs) == ItemExpansion(it, phs) + Expand(items, phs)
  {
    assert ([it] + items)[0] == it;
    assert ([it] + items)[1..] == items;
  }

  /**
   * Masking one unflagged text: the tokens carry the consecutive indices
   * next, next+1, ...; each new placeholder is a non-empty group of sup/sub
   * characters, classified by its first character and carrying the run's
   * formatting; no two tokens are adjacent (groups are maximal); every
   * copied character is a plain character of the text; and putting the
   * placeholders back gives the text again.
   */
  lemma MaskTextShape<F>(text: string, next: nat, fmt: F, before: seq<PlaceholderInfo<F>>)
    requires |before| == next
    ensures NumberedFrom(MaskText(text, next, fmt).items, next, |MaskText(text, next, fmt).placeholders|)
    ensures GroupPlaceholders(MaskText(text, next, fmt).placeholders, fmt)
    ensures NoAdjacentTokens(MaskText(text, next, fmt).items)
    ensures CharsPlain(MaskText(text, next, fmt).items) && CharsFrom(MaskText(text, next, fmt).items, text)
    ensures Expand(MaskText(text, next, fmt).items, before + MaskText(text, next, fmt).placeholders) == text
  {
    MaskTextRefs(text, next, fmt);
    MaskTextPlaceholders(text, next, fmt);
    MaskTextItems(text, next, fmt);
    MaskTextExpand(text, next, fmt, before);
  }

  /**
   * Masking one run: a run flagged superscript or subscript becomes
   * exactly one placeholder holding its whole text, flags and formatting;
   * any other run is masked as MaskTextShape describes.  Either way the
   * tokens are numbered consecutively from `next` and putting the
   * placeholders back gives the run's text.
   */
  lemma MaskRunShape<F>(run: RunInfo<F>, next: nat, before: seq<PlaceholderInfo<F>>)
    requires |before| == next
    ensures NumberedFrom(MaskRun(run, next).items, next, |MaskRun(run, next).placeholders|)
    ensures Expand(MaskRun(run, next).items, before + MaskRun(run, next).placeholders) == run.text
    ensures CharsFrom(MaskRun(run, next).items, run.text)
    ensures run.isSuperscript || run.isSubscript ==>
              MaskRun(run, next).placeholders == [PlaceholderInfo(run.text, run.isSuperscript, run.isSubscript, run.formatting)]
    ensures !run.isSuperscript && !run.isSubscript ==>
              GroupPlaceholders(MaskRun(run, next).placeholders, run.formatting) &&
              NoAdjacentTokens(MaskRun(run, next).items) && CharsPlain(MaskRun(run, next).items)
  {
    var m := MaskRun(run, next);
    if run.isSuperscript || run.isSubscript {
      assert Refs(m.items) == [next] + Refs([]);
      assert (before + m.placeholders)[next] == m.placeholders[0];
      assert Expand(m.items, before + m.placeholders) == run.text + Expand([], before + m.placeholders);
    } else {
      MaskTextShape(run.text, next, run.formatting, before);
    }
  }

  /** The tokens of a masked paragraph carry the indices next, next+1, ... in order. */
  lemma {:induction false} MaskRunsRefs<F>(runs: seq<RunInfo<F>>, next: nat)
    ensures NumberedFrom(MaskRuns(runs, next).items, next, |MaskRuns(runs, next).placeholders|)
    decreases |runs|
  {
    if runs != [] {
      var first := MaskRun(runs[0], next);
      var rest := MaskRuns(runs[1..], next + |first.placeholders|);
      if runs[0].isSuperscript || runs[0].isSubscript {
        assert Refs(first.items) == [next] + Refs([]);
      } else {
        MaskTextRefs(runs[0].text, next, runs[0].formatting);
      }
      MaskRunsRefs(runs[1..], next + |first.placeholders|);
      RefsAppend(first.items, rest.items);
    }
  }

  /** Putting the placeholders of a masked paragraph back gives the concatenated run texts. */
  lemma {:induction false} MaskRunsExpand<F>(runs: seq<RunInfo<F>>, next: nat, before: seq<PlaceholderInfo<F>>)
    requires |before| == next
    ensures Expand(MaskRuns(runs, next).items, before + MaskRuns(runs, next).placeholders) == ConcatTexts(runs)
    decreases |runs|
  {
    if runs != [] {
      var first := MaskRun(runs[0], next);
      var rest := MaskRuns(runs[1..], next + |first.placeholders|);
      MaskRunsExpand(runs[1..], next + |first.placeholders|, before + first.placeholders);
      ExpandRunsCase(runs, next, before, first, rest);
    }
  }

  lemma ExpandRunsCase<F>(runs: seq<RunInfo<F>>, next: nat, before: seq<PlaceholderInfo<F>>, first: MaskResult<F>, rest: MaskResult<F>)
    requires |before| == next && runs != []
    requires first == MaskRun(runs[0], next) && rest == MaskRuns(runs[1..], next + |first.placeholders|)
    requires Expand(rest.items, before + first.placeholders + rest.placeholders) == ConcatTexts(runs[1..])
    ensures Expand(MaskRuns(runs, next).items, before + MaskRuns(runs, next).placeholders) == ConcatTexts(runs)
  {
    MaskRunsCons(runs, next, first, rest);
    MaskRunExpand(runs[0], next, before);
    assert ConcatTexts(runs) == runs[0].text + ConcatTexts(runs[1..]);
    ExpandAppendStep(before, first.items, first.placeholders, rest.items, rest.placeholders, runs[0].text, ConcatTexts(runs[1..]));
  }

  /** MaskRuns on a non-empty run list, in terms of the masked first run and the masked rest. */
  lemma MaskRunsCons<F>(runs: seq<RunInfo<F>>, next: nat, first: MaskResult<F>, rest: MaskResult<F>)
    requires runs != []
    requires first == MaskRun(runs[0], next) && rest == MaskRuns(runs[1..], next + |first.placeholders|)
    ensures MaskRuns(runs, next) == MaskResult(first.items + rest.items, first.placeholders + rest.placeholders)
  {
  }

  /** Expanding two pieces of masked text, the first of which refers only to placeholders in before + p1. */
  lemma ExpandAppendStep<F>(before: seq<PlaceholderInfo<F>>, i1: seq<Item>, p1: seq<PlaceholderInfo<F>>, i2: seq<Item>, p2: seq<PlaceholderInfo<F>>,
                            t1: string, t2: string)
    requires RefsBelow(i1, |before| + |p1|)
    requires Expand(i1, before + p1) == t1 && Expand(i2, before + p1 + p2) == t2
    ensures Expand(i1 + i2, before + (p1 + p2)) == t1 + t2
  {
    Assoc(before, p1, p2);
    ExpandAppend(i1, i2, before + p1 + p2);
    ExpandRefsInRange(i1, before + p1, p2);
  }

  /** The placeholders of one masked run, put back after `before`, give the run's text; its tokens refer to no later placeholder. */
  lemma MaskRunExpand<F>(run: RunInfo<F>, next: nat, before: seq<PlaceholderInfo<F>>)
    requires |before| == next
    ensures Expand(MaskRun(run, next).items, before + MaskRun(run, next).placeholders) == run.text
    ensures RefsBelow(MaskRun(run, next).items, next + |MaskRun(run, next).placeholders|)
  {
    var m := MaskRun(run, next);
    if run.isSuperscript || run.isSubscript {
      assert Refs(m.items) == [next] + Refs([]);
      ExpandCons(Ref(next), [], before + m.placeholders);
      assert (before + m.placeholders)[next] == m.placeholders[0];
    } else {
      MaskTextExpand(run.text, next, run.formatting, before);
      MaskTextRefs(run.text, next, run.formatting);
      NumberedBelow(m.items, next, |m.placeholders|);
    }
  }

  /** Every token in items refers to an index below bound. */
  ghost predicate RefsBelow(items: seq<Item>, bound: nat) {
    forall k :: k in Refs(items) ==> k < bound
  }

  lemma NumberedBelow(items: seq<Item>, next: nat, count: nat)
    requires NumberedFrom(items, next, count)
    ensures RefsBelow(items, next + count)
  {
    forall k | k in Refs(items) ensures k < next + count {
      var j :| 0 <= j < |Refs(items)| && Refs(items)[j] == k;
    }
  }

  /** Every character copied into a masked paragraph comes from one of its runs. */
  lemma {:induction false} MaskRunsChars<F>(runs: seq<RunInfo<F>>, next: nat)
    ensures CharsFrom(MaskRuns(runs, next).items, ConcatTexts(runs))
    decreases |runs|
  {
    if runs != [] {
      var m := MaskRuns(runs, next);
      var first := MaskRun(runs[0], next);
      var rest := MaskRuns(runs[1..], next + |first.placeholders|);
      var text := ConcatTexts(runs);
      if !runs[0].isSuperscript && !runs[0].isSubscript {
        MaskTextItems(runs[0].text, next, runs[0].formatting);
      }
      MaskRunsChars(runs[1..], next + |first.placeholders|);
      forall k | 0 <= k < |m.items| && m.items[k].Char?
        ensures m.items[k].c in text
      {
        if k < |first.items| {
          assert m.items[k] == first.items[k];
          var j :| 0 <= j < |runs[0].text| && runs[0].text[j] == m.items[k].c;
          assert text[j] == runs[0].text[j];
        } else {
          assert m.items[k] == rest.items[k - |first.items|];
          var j :| 0 <= j < |ConcatTexts(runs[1..])| && ConcatTexts(runs[1..])[j] == m.items[k].c;
          assert text[|runs[0].text| + j] == ConcatTexts(runs[1..])[j];
        }
      }
    }
  }

  /**
   * Masking a whole paragraph: the tokens in the masked text carry the
   * indices next, next+1, ... in order (each equals its placeholder's
   * position in the list), every copied character comes from a run, and
   * putting the placeholders back gives the concatenated run texts.
   */
  lemma MaskRunsShape<F>(runs: seq<RunInfo<F>>, next: nat, before: seq<PlaceholderInfo<F>>)
    requires |before| == next
    ensures NumberedFrom(MaskRuns(runs, next).items, next, |MaskRuns(runs, next).placeholders|)
    ensures Expand(MaskRuns(runs, next).items, before + MaskRuns(runs, next).placeholders) == ConcatTexts(runs)
    ensures CharsFrom(MaskRuns(runs, next).items, ConcatTexts(runs))
  {
    MaskRunsRefs(runs, next);
    MaskRunsExpand(runs, next, before);
    MaskRunsChars(runs, next);
  }

  /** Placeholders appended after the ones items refer to do not change its expansion. */
  lemma {:induction false} ExpandRefsInRange<F>(items: seq<Item>, phs: seq<PlaceholderInfo<F>>, more: seq<PlaceholderInfo<F>>)
    requires RefsBelow(items, |phs|)
    ensures Expand(items, phs + more) == Expand(items, phs)
  {
    if items != [] {
      var head := if items[0].Ref? then [items[0].index] else [];
      assert Refs(items) == head + Refs(items[1..]);
      forall k | k in Refs(items[1..]) ensures k < |phs| {
        assert k in Refs(items);
      }
      ExpandRefsInRange(items[1..], phs, more);
      if items[0].Ref? {
        assert items[0].index in Refs(items);
      }
    }
  }

  /** With no flagged run, the masked text keeps no sup/sub character: all of them went into placeholders. */
  lemma {:induction false} MaskedCharsArePlain<F>(runs: seq<RunInfo<F>>, next: nat)
    requires forall r :: r in runs ==> !r.isSuperscript && !r.isSubscript
    ensures CharsPlain(MaskRuns(runs, next).items)
    decreases |runs|
  {
    if runs != [] {
      var m := MaskRuns(runs, next);
      var first := MaskRun(runs[0], next);
      var rest := MaskRuns(runs[1..], next + |first.placeholders|);
      assert runs[0] in runs;
      MaskTextItems(runs[0].text, next, runs[0].formatting);
      MaskedCharsArePlain(runs[1..], next + |first.placeholders|);
      forall k | 0 <= k < |m.items| && m.items[k].Char?
        ensures IsPlain(m.items[k].c)
      {
        if k < |first.items| {
          assert m.items[k] == first.items[k];
        } else {
          assert m.items[k] == rest.items[k - |first.items|];
        }
      }
    }
  }
}
