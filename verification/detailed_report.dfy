/** The detailed-report view: one list entry per report item, in the items'
    order, showing the item's name and message with its status badge. */
module DetailedReport {
  import opened JsRuntime
  import opened Types
  import opened StatusVisuals

  datatype Entry = Entry(name: string, message: string, visual: Visual)

  function EntryOf(item: DetailedReportItem): Entry {
    Entry(item.name, item.message, Visuals(StatusName(item.status)))
  }

  /** `detailedReport.map(item => <li>...</li>)`. */
  function Entries(items: seq<DetailedReportItem>): (entries: seq<Entry>)
    ensures |entries| == |items|
    ensures forall i :: 0 <= i < |items| ==> entries[i] == EntryOf(items[i])
    decreases |items|
  {
    if items == [] then [] else [EntryOf(items[0])] + Entries(items[1..])
  }

  /** The whole view. A null report has no rendering: `map` is called on it
      without a null check. */
  function Render(report: Option<seq<DetailedReportItem>>): (entries: Option<seq<Entry>>)
    ensures entries.None? <==> report.None?
    ensures entries.Some? ==> |entries.value| == |report.value|
    ensures entries.Some? ==> entries.value == Entries(report.value)
  {
    match report
    case None => None
    case Some(items) => Some(Entries(items))
  }

  /** Each entry shows its item's name and message unchanged, and its badge
      is never the yellow warning one, since no item status spells `WARNING`. */
  lemma EntriesShowItems(items: seq<DetailedReportItem>)
    ensures forall i :: 0 <= i < |items| ==>
      Entries(items)[i].name == items[i].name &&
      Entries(items)[i].message == items[i].message &&
      Entries(items)[i].visual.color != Yellow
  {
    forall i | 0 <= i < |items|
      ensures Entries(items)[i].visual.color != Yellow
    {
      StatusVisuals.StatusVisuals(items[i].status);
    }
  }

  /** Rendering distributes over concatenation: the entries of a report are
      the entries of its first part followed by those of the rest. */
  lemma {:induction false} EntriesAppend(a: seq<DetailedReportItem>, b: seq<DetailedReportItem>)
    ensures Entries(a + b) == Entries(a) + Entries(b)
  {
  }
}
