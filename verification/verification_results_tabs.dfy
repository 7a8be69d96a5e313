/** The tabbed result view: four tabs in a fixed order, one of them active
    (initially the simple report), and under them the view of the active
    tab, fed with its own part of the verification result and the result's
    file name and report location. */
module VerificationResultsTabs {
  import opened JsRuntime
  import opened Types
  import SimpleReport
  import DetailedReport
  import DiagnosticTree
  import EtsiValidationReport

  datatype Tab = SimpleTab | DetailedTab | DiagnosticTreeTab | EtsiTab

  /** The text of each tab button. */
  function TabLabel(t: Tab): string {
    match t
    case SimpleTab => "Simple"
    case DetailedTab => "Detailed"
    case DiagnosticTreeTab => "Diagnostic Tree"
    case EtsiTab => "ETSI Validation Report"
  }

  /** The buttons, left to right. */
  const Tabs: seq<Tab> := [SimpleTab, DetailedTab, DiagnosticTreeTab, EtsiTab]

  /** Every tab has exactly one button, and no two buttons share a label. */
  lemma TabsListEachOnce()
    ensures forall t: Tab :: t in Tabs
    ensures forall i, j :: 0 <= i < j < |Tabs| ==> Tabs[i] != Tabs[j]
    ensures forall t, u: Tab :: TabLabel(t) == TabLabel(u) ==> t == u
  {
    forall t: Tab ensures t in Tabs {
      match t
      case SimpleTab => assert Tabs[0] == t;
      case DetailedTab => assert Tabs[1] == t;
      case DiagnosticTreeTab => assert Tabs[2] == t;
      case EtsiTab => assert Tabs[3] == t;
    }
  }

  /** How many of the buttons `tabs` are marked selected when `active` is. */
  function SelectedCount(tabs: seq<Tab>, active: Tab): (n: nat)
    ensures n <= |tabs|
    ensures n == 0 <==> active !in tabs
  {
    if tabs == [] then 0
    else (if tabs[0] == active then 1 else 0) + SelectedCount(tabs[1..], active)
  }

  /** Whatever tab is active, exactly one button is marked selected. */
  lemma ExactlyOneSelected(active: Tab)
    ensures SelectedCount(Tabs, active) == 1
  {
    assert Tabs[1..] == [DetailedTab, DiagnosticTreeTab, EtsiTab];
    assert Tabs[2..] == [DiagnosticTreeTab, EtsiTab];
    assert Tabs[3..] == [EtsiTab];
  }

  /** What the content area shows. For the simple, detailed and tree views
      `None` stands for a render that throws on a null part. */
  datatype Content =
    | SimpleContent(panel: Option<SimpleReport.Panel>)
    | DetailedContent(entries: Option<seq<DetailedReport.Entry>>)
    | TreeContent(rows: Option<seq<DiagnosticTree.Row>>)
    | EtsiContent(etsi: EtsiValidationReport.Panel)

  function ContentTab(c: Content): Tab {
    match c
    case SimpleContent(_) => SimpleTab
    case DetailedContent(_) => DetailedTab
    case TreeContent(_) => DiagnosticTreeTab
    case EtsiContent(_) => EtsiTab
  }

  /** `renderContent`: the active tab's view. */
  function RenderContent(result: VerificationResult, active: Tab): (c: Content)
    ensures ContentTab(c) == active
    ensures active == SimpleTab ==>
      (c.panel.Some? <==> result.simpleReport.Some?) && c.panel == SimpleReport.Render(result.simpleReport)
    ensures active == DetailedTab ==>
      (c.entries.Some? <==> result.detailedReport.Some?) && c.entries == DetailedReport.Render(result.detailedReport)
    ensures active == DiagnosticTreeTab ==>
      (c.rows.Some? <==> result.diagnosticTree.Some?) && c.rows == DiagnosticTree.RenderTree(result.diagnosticTree)
    ensures active == EtsiTab ==>
      (c.etsi.Unavailable? <==> EtsiValidationReport.ShowsUnavailable(result.etsiValidationReport)) &&
      c.etsi == EtsiValidationReport.Render(result.etsiValidationReport, result.fileName, result.downloadUrl)
  {
    match active
    case SimpleTab => SimpleContent(SimpleReport.Render(result.simpleReport))
    case DetailedTab => DetailedContent(DetailedReport.Render(result.detailedReport))
    case DiagnosticTreeTab => TreeContent(DiagnosticTree.RenderTree(result.diagnosticTree))
    case EtsiTab => EtsiContent(EtsiValidationReport.Render(result.etsiValidationReport, result.fileName, result.downloadUrl))
  }

  /** Each tab shows only its own part of the result: two results that agree
      on that part (and, for the ETSI tab, on the file name and report
      location) show the same content. */
  lemma ContentDependsOnOwnPart(a: VerificationResult, b: VerificationResult, active: Tab)
    requires active == SimpleTab ==> a.simpleReport == b.simpleReport
    requires active == DetailedTab ==> a.detailedReport == b.detailedReport
    requires active == DiagnosticTreeTab ==> a.diagnosticTree == b.diagnosticTree
    requires active == EtsiTab ==>
      a.etsiValidationReport == b.etsiValidationReport && a.fileName == b.fileName && a.downloadUrl == b.downloadUrl
    ensures RenderContent(a, active) == RenderContent(b, active)
  {
  }

  /** A view whose part of the result is null has no rendering: the simple,
      detailed and tree views dereference their part without a null check and
      throw, and with no error boundary above them the whole page is
      unmounted. Only the ETSI view guards the null and shows its fallback
      panel. */
  lemma MissingPartThrows(result: VerificationResult, active: Tab)
    ensures active == SimpleTab && result.simpleReport.None? ==> RenderContent(result, active) == SimpleContent(None)
    ensures active == DetailedTab && result.detailedReport.None? ==> RenderContent(result, active) == DetailedContent(None)
    ensures active == DiagnosticTreeTab && result.diagnosticTree.None? ==> RenderContent(result, active) == TreeContent(None)
    ensures active == EtsiTab && result.etsiValidationReport.None? ==>
      RenderContent(result, active) == EtsiContent(EtsiValidationReport.Unavailable)
  {
  }

  class TabsView {
    const result: VerificationResult
    var activeTab: Tab

    /** Mounting: the simple report is shown first. */
    constructor(result: VerificationResult)
      ensures this.result == result && activeTab == SimpleTab
    {
      this.result := result;
      activeTab := SimpleTab;
    }

    /** The content currently shown. */
    function Shown(): (c: Content)
      reads this
      ensures ContentTab(c) == activeTab
    {
      RenderContent(result, activeTab)
    }

    /** A click on the button of `t`: only the active tab changes. */
    method SelectTab(t: Tab)
      modifies this
      ensures activeTab == t
      ensures Shown() == RenderContent(result, t)
    {
      activeTab := t;
    }
  }
}
