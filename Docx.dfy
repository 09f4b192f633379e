/**
 * The parts of a Word paragraph the spell-check pass reads and writes.
 *
 * A run has an optional text (XWPFRun.getText(0) is null for a run without
 * a text element) and optional run properties (the CTRPr element, absent
 * until something sets a property).  Of the properties the pass only
 * looks at or sets the vertical alignment, the character style, the
 * colour, bold, the font size and strike-through; everything else the
 * properties hold is carried along untouched and is not modelled.
 *
 * A paragraph is an object whose run list the pass changes in place, with
 * the three list operations of XWPFParagraph it uses.
 */
module Docx {
  import opened Wrappers

  datatype VertAlign = Baseline | Superscript | Subscript

  /** The run properties (CTRPr) as far as the pass is concerned. */
  datatype RunProps = RunProps(
    vertAlign: VertAlign, rStyle: Option<string>, color: Option<string>, bold: bool, fontSize: Option<nat>, strike: bool)

  datatype Run = Run(text: Option<string>, props: Option<RunProps>)

  /** The properties a run gets when a setter creates its CTRPr. */
  const NoProps: RunProps := RunProps(Baseline, None, None, false, None, false)

  /** Colours written by the pass. */
  const MarkerColor: string := "FF6600"
  const DeletedColor: string := "2F4F4F"
  const AddedColor: string := "2CFF05"

  /** isSuperscriptRun: the run has properties whose vertical alignment is superscript. */
  predicate IsSuperscriptRun(run: Run) {
    run.props.Some? && run.props.value.vertAlign == Superscript
  }

  /** isSubscriptRun: the run has properties whose vertical alignment is subscript. */
  predicate IsSubscriptRun(run: Run) {
    run.props.Some? && run.props.value.vertAlign == Subscript
  }

  /** run.getText(0), with null read as the empty string (as extractRunInfos and addMarkersToSuperSubscripts both treat it). */
  function TextOf(run: Run): string {
    match run.text
    case None => ""
    case Some(t) => t
  }

  /** The properties a run has after a setter touched them: the existing ones, or fresh ones. */
  function PropsOrNew(props: Option<RunProps>): RunProps {
    match props
    case None => NoProps
    case Some(p) => p
  }

  /** XWPFParagraph, reduced to its style id and its run list. */
  class Paragraph {
    const styleId: Option<string>
    var runs: seq<Run>

    constructor (styleId: Option<string>, runs: seq<Run>)
      ensures this.styleId == styleId && this.runs == runs
    {
      this.styleId := styleId;
      this.runs := runs;
    }

    /** insertNewRun(pos), with the new run already given its text and properties. */
    method InsertNewRun(pos: nat, run: Run)
      requires pos <= |runs|
      modifies this
      ensures runs == old(runs[..pos]) + [run] + old(runs[pos..])
    {
      runs := runs[..pos] + [run] + runs[pos..];
    }

    /** removeRun(pos). */
    method RemoveRun(pos: nat)
      requires pos < |runs|
      modifies this
      ensures runs == old(runs[..pos]) + old(runs[pos + 1..])
    {
      runs := runs[..pos] + runs[pos + 1..];
    }

    /** createRun(), with the new run already given its text and properties. */
    method CreateRun(run: Run)
      modifies this
      ensures runs == old(runs) + [run]
    {
      runs := runs + [run];
    }
  }
}
