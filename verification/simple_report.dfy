/** The simple-report view: a success, failure or neutral panel chosen from
    the overall indication, headed by the indication with its first
    underscore turned into a space. */
module SimpleReport {
  import opened JsRuntime
  import opened Types
  import opened StatusVisuals

  datatype Tone = Success | Failure | Neutral

  /** `isSuccess` and `isFailure`: exact comparison with the two overall
      outcomes. */
  function ToneOf(indication: VerificationStatus): (t: Tone)
    ensures t == Success <==> indication == TotalPassed
    ensures t == Failure <==> indication == TotalFailed
  {
    if StatusName(indication) == "TOTAL_PASSED" then Success
    else if StatusName(indication) == "TOTAL_FAILED" then Failure
    else Neutral
  }

  /** The icon and colour of each tone: the neutral panel is yellow with the
      information icon. */
  function ToneVisual(t: Tone): Visual {
    match t
    case Success => Visual(CheckCircle, Green)
    case Failure => Visual(XCircle, Red)
    case Neutral => Visual(InformationCircle, Yellow)
  }

  /** `indication.replace('_', ' ')`. */
  function Heading(indication: VerificationStatus): (h: string)
    ensures |h| == |StatusName(indication)|
  {
    ReplaceFirst(StatusName(indication), '_', ' ')
  }

  datatype Panel = Panel(tone: Tone, visual: Visual, heading: string, message: string)

  /** The whole view. A null report has no rendering: its `indication` is
      read without a null check. */
  function Render(report: Option<SimpleReport>): (panel: Option<Panel>)
    ensures panel.None? <==> report.None?
    ensures panel.Some? ==> panel.value.message == report.value.message
    ensures panel.Some? ==>
      panel.value.tone == ToneOf(report.value.indication) &&
      panel.value.visual == ToneVisual(panel.value.tone) &&
      panel.value.heading == Heading(report.value.indication)
  {
    match report
    case None => None
    case Some(r) => Some(Panel(ToneOf(r.indication), ToneVisual(ToneOf(r.indication)), Heading(r.indication), r.message))
  }

  /** Every indication other than the two overall outcomes gets the neutral
      yellow panel, `PASSED` included, and success and failure never
      coincide. */
  lemma NeutralIndications(s: VerificationStatus)
    ensures ToneVisual(ToneOf(s)).color == Yellow <==> s in {Passed, Failed, Indeterminate}
    ensures !(ToneOf(s) == Success && ToneOf(s) == Failure)
  {
  }

  lemma HeadingTotalPassed()
    ensures Heading(TotalPassed) == "TOTAL PASSED"
    ensures '_' !in Heading(TotalPassed)
  {
    assert StatusName(TotalPassed) == "TOTAL" + ['_'] + "PASSED";
    ReplaceFirstSplit("TOTAL", '_', ' ', "PASSED");
    assert "TOTAL" + [' '] + "PASSED" == "TOTAL PASSED";
  }

  lemma HeadingTotalFailed()
    ensures Heading(TotalFailed) == "TOTAL FAILED"
    ensures '_' !in Heading(TotalFailed)
  {
    assert StatusName(TotalFailed) == "TOTAL" + ['_'] + "FAILED";
    ReplaceFirstSplit("TOTAL", '_', ' ', "FAILED");
    assert "TOTAL" + [' '] + "FAILED" == "TOTAL FAILED";
  }

  lemma HeadingUnchanged(s: VerificationStatus)
    requires s in {Passed, Failed, Indeterminate}
    ensures Heading(s) == StatusName(s)
    ensures '_' !in Heading(s)
  {
    assert '_' !in StatusName(s);
    ReplaceFirstAbsent(StatusName(s), '_', ' ');
  }

  /** Each status has at most one underscore, so no heading shows one: the
      two overall outcomes read `TOTAL PASSED` and `TOTAL FAILED`, the others
      are unchanged. */
  lemma HeadingHasNoUnderscore(s: VerificationStatus)
    ensures '_' !in Heading(s)
  {
    match s
    case TotalPassed => HeadingTotalPassed();
    case TotalFailed => HeadingTotalFailed();
    case _ => HeadingUnchanged(s);
  }
}
