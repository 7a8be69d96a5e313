/** The ETSI validation report view: its availability switch, the main
    indication and pass test, the download link for the report file, and
    the plain-text summary offered for copying. */
module EtsiValidationReport {
  import opened JsRuntime
  import opened Types
  import PercentEncoding

  /** `Boolean(report?.available)`. */
  predicate IsAvailable(report: Option<EtsiValidationReportInfo>) {
    report.Some? && report.value.available
  }

  /** The view falls back to the "cannot be provided" panel exactly when there
      is no report or it is not available. */
  function ShowsUnavailable(report: Option<EtsiValidationReportInfo>): (unavailable: bool)
    ensures unavailable <==> report.None? || !report.value.available
  {
    report.None? || !IsAvailable(report)
  }

  /** `report?.mainIndication ?? 'INDETERMINATE'`. */
  function Indication(report: Option<EtsiValidationReportInfo>): string {
    if report.Some? && report.value.mainIndication.Some?
    then StatusName(report.value.mainIndication.value)
    else "INDETERMINATE"
  }

  /** `/passed/i.test(indication)`. */
  predicate IsPassed(indication: string) {
    ContainsIgnoringCase(indication, "passed")
  }

  lemma TotalPassedPasses() ensures IsPassed("TOTAL_PASSED") {
    assert MatchesAt("TOTAL_PASSED", 6, "passed");
    ContainsIgnoringCaseIff("TOTAL_PASSED", "passed");
  }

  lemma PassedPasses() ensures IsPassed("PASSED") {
    assert MatchesAt("PASSED", 0, "passed");
    ContainsIgnoringCaseIff("PASSED", "passed");
  }

  lemma TotalFailedFails() ensures !IsPassed("TOTAL_FAILED") {
    MissingFirstCharacter("TOTAL_FAILED", "passed");
  }

  lemma FailedFails() ensures !IsPassed("FAILED") {
    MissingFirstCharacter("FAILED", "passed");
  }

  lemma IndeterminateFails() ensures !IsPassed("INDETERMINATE") {
    MissingFirstCharacter("INDETERMINATE", "passed");
  }

  /** Of the five statuses, exactly `TOTAL_PASSED` and `PASSED` pass the test. */
  lemma StatusPassed(s: VerificationStatus)
    ensures IsPassed(StatusName(s)) <==> s == TotalPassed || s == Passed
  {
    match s
    case TotalPassed => TotalPassedPasses();
    case Passed => PassedPasses();
    case TotalFailed => TotalFailedFails();
    case Failed => FailedFails();
    case Indeterminate => IndeterminateFails();
  }

  /** The badge is green exactly for `TOTAL_PASSED` and `PASSED`; a missing
      report or indication reads as `INDETERMINATE`, which is not passed. */
  lemma IndicationPassed(report: Option<EtsiValidationReportInfo>)
    ensures IsPassed(Indication(report)) <==>
      report.Some? && report.value.mainIndication in {Some(TotalPassed), Some(Passed)}
    ensures report.None? || report.value.mainIndication.None? ==> Indication(report) == "INDETERMINATE"
  {
    if report.Some? && report.value.mainIndication.Some? {
      StatusPassed(report.value.mainIndication.value);
    } else {
      IndeterminateFails();
    }
  }

  /** `Boolean(fileName)`. */
  predicate CanDownload(fileName: Option<string>) {
    Truthy(fileName)
  }

  /** The download link: `/kr-dss${downloadUrl}/etsi/${encodeURIComponent(fileName)}`,
      or null without a file name. Nothing is normalised. */
  function EtsiDownloadUrl(downloadUrl: Option<string>, fileName: Option<string>): (url: Option<string>)
    ensures url.None? <==> !CanDownload(fileName)
    ensures url.Some? ==> StartsWith(url.value, "/kr-dss")
    ensures url.Some? ==> EndsWith(url.value, PercentEncoding.Encode(fileName.value))
  {
    if !Truthy(fileName) then None
    else Some("/kr-dss" + Interpolate(downloadUrl) + "/etsi/" + PercentEncoding.Encode(fileName.value))
  }

  /** The download button is disabled exactly when there is no file name. */
  function DownloadDisabled(downloadUrl: Option<string>, fileName: Option<string>): (disabled: bool)
    ensures disabled <==> !Truthy(fileName)
  {
    !CanDownload(fileName) || EtsiDownloadUrl(downloadUrl, fileName).None?
  }

  /** The encoded file name is the whole last path segment of the link, and
      for an ASCII name decoding that segment gives the name back. */
  lemma EtsiUrlLastSegment(downloadUrl: Option<string>, fileName: Option<string>)
    requires Truthy(fileName)
    ensures var url := EtsiDownloadUrl(downloadUrl, fileName).value;
            var enc := PercentEncoding.Encode(fileName.value);
            LastIndexOf(url, '/') == |url| - |enc| - 1 && url[|url| - |enc|..] == enc
    ensures (forall i :: 0 <= i < |fileName.value| ==> fileName.value[i] as int < 0x80) ==>
            var url := EtsiDownloadUrl(downloadUrl, fileName).value;
            PercentEncoding.Decode(url[LastIndexOf(url, '/') + 1..]) == fileName.value
  {
    var enc := PercentEncoding.Encode(fileName.value);
    var prefix := "/kr-dss" + Interpolate(downloadUrl) + "/etsi/";
    var url := prefix + enc;
    assert url == EtsiDownloadUrl(downloadUrl, fileName).value;
    PercentEncoding.EncodeHasNoSlashOrSpace(fileName.value);
    assert url[|prefix| - 1] == '/';
    forall i | |prefix| <= i < |url| ensures url[i] != '/' {
      assert url[i] == enc[i - |prefix|];
    }
    assert url[|url| - |enc|..] == enc;
    if forall i :: 0 <= i < |fileName.value| ==> fileName.value[i] as int < 0x80 {
      PercentEncoding.EncodeRoundTrip(fileName.value);
    }
  }

  /** No separator handling: a base ending in `/` gives `//etsi/`, and a null
      base is spelled out as `null`. */
  lemma EtsiUrlVerbatimBase(downloadUrl: Option<string>, fileName: Option<string>)
    requires Truthy(fileName)
    ensures downloadUrl.Some? ==>
      StartsWith(EtsiDownloadUrl(downloadUrl, fileName).value, "/kr-dss" + downloadUrl.value + "/etsi/")
    ensures downloadUrl.Some? && EndsWith(downloadUrl.value, "/") ==>
      var url := EtsiDownloadUrl(downloadUrl, fileName).value;
      url[6 + |downloadUrl.value|..13 + |downloadUrl.value|] == "//etsi/"
    ensures downloadUrl.None? ==>
      StartsWith(EtsiDownloadUrl(downloadUrl, fileName).value, "/kr-dssnull/etsi/")
  {
    var enc := PercentEncoding.Encode(fileName.value);
    if downloadUrl.Some? {
      var u := downloadUrl.value;
      var url := "/kr-dss" + u + "/etsi/" + enc;
      assert url[..|"/kr-dss" + u + "/etsi/"|] == "/kr-dss" + u + "/etsi/";
      if EndsWith(u, "/") {
        assert url[6 + |u|] == u[|u| - 1];
        assert url[6 + |u|..13 + |u|] == "//etsi/";
      }
    } else {
      var url := "/kr-dssnull/etsi/" + enc;
      assert url[..|"/kr-dssnull/etsi/"|] == "/kr-dssnull/etsi/";
    }
  }

  // ---- the copy-to-clipboard summary ----

  const SummaryHeader := "[ETSI Validation Report Summary]"

  /** The ten optional fields, in the order the summary lists them. */
  const FieldLabels: seq<string> :=
    ["mainIndication: ", "validationTime: ", "poeTime: ", "policy: ", "algorithm: ",
     "signerInfo: ", "cert: ", "certNotAfter: ", "timeStampEvidence: ", "message: "]

  /** `mainIndication` as text, or null. */
  function MainIndicationText(r: EtsiValidationReportInfo): Option<string> {
    if r.mainIndication.Some? then Some(StatusName(r.mainIndication.value)) else None
  }

  function Fields(r: EtsiValidationReportInfo): (fs: seq<Option<string>>)
    ensures |fs| == |FieldLabels|
  {
    [MainIndicationText(r),
     r.validationTime, r.poeTime, r.policy, r.algorithm,
     r.signerInfo, r.cert, r.certNotAfter, r.timeStampEvidence, r.message]
  }

  /** The line `label: value` for field k when its value is truthy, else nothing. */
  function Line(labels: seq<string>, fs: seq<Option<string>>, k: nat): seq<string>
    requires |labels| == |fs| && k < |fs|
  {
    if Truthy(fs[k]) then [labels[k] + fs[k].value] else []
  }

  /** The lines of the truthy fields among k, k+1, ..., in that order. */
  function PresentLines(labels: seq<string>, fs: seq<Option<string>>, k: nat): seq<string>
    requires |labels| == |fs| && k <= |fs|
    decreases |fs| - k
  {
    if k == |fs| then [] else Line(labels, fs, k) + PresentLines(labels, fs, k + 1)
  }

  /** The indices of the truthy fields among k, k+1, .... */
  function PresentIndices(fs: seq<Option<string>>, k: nat): seq<nat>
    requires k <= |fs|
    decreases |fs| - k
  {
    if k == |fs| then [] else (if Truthy(fs[k]) then [k] else []) + PresentIndices(fs, k + 1)
  }

  function SummaryLines(r: EtsiValidationReportInfo): seq<string> {
    [SummaryHeader, "available: " + BoolText(r.available)] + PresentLines(FieldLabels, Fields(r), 0)
  }

  /** The summary text, or "" without a report. */
  function CopyText(report: Option<EtsiValidationReportInfo>): string {
    match report
    case None => ""
    case Some(r) => Join(SummaryLines(r), "\n")
  }

  /** The listed indices are exactly the truthy fields, in increasing order. */
  lemma {:induction false} PresentIndicesSpec(fs: seq<Option<string>>, k: nat)
    requires k <= |fs|
    ensures var p := PresentIndices(fs, k);
      && (forall i :: 0 <= i < |p| ==> k <= p[i] < |fs| && Truthy(fs[p[i]]))
      && (forall i, j :: 0 <= i < j < |p| ==> p[i] < p[j])
      && (forall f :: k <= f < |fs| && Truthy(fs[f]) ==> f in p)
    decreases |fs| - k
  {
    if k < |fs| {
      PresentIndicesSpec(fs, k + 1);
      var q := PresentIndices(fs, k + 1);
      if Truthy(fs[k]) {
        var p := PresentIndices(fs, k);
        assert p == [k] + q;
        forall f | k <= f < |fs| && Truthy(fs[f]) ensures f in p {
          if f > k { assert f in q; }
        }
      }
    }
  }

  /** Line i of the list is the `label: value` line of the i-th listed field. */
  lemma {:induction false} PresentLinesFollowIndices(labels: seq<string>, fs: seq<Option<string>>, k: nat)
    requires |labels| == |fs| && k <= |fs|
    ensures var p := PresentIndices(fs, k);
      && |PresentLines(labels, fs, k)| == |p|
      && (forall i :: 0 <= i < |p| ==>
            (p[i] < |fs| && fs[p[i]].Some? &&
             PresentLines(labels, fs, k)[i] == labels[p[i]] + fs[p[i]].value))
    decreases |fs| - k
  {
    if k < |fs| {
      PresentLinesFollowIndices(labels, fs, k + 1);
      PresentIndicesSpec(fs, k + 1);
      if Truthy(fs[k]) {
        var p := PresentIndices(fs, k);
        var q := PresentIndices(fs, k + 1);
        assert p == [k] + q;
        var ls := PresentLines(labels, fs, k);
        assert ls == [labels[k] + fs[k].value] + PresentLines(labels, fs, k + 1);
        forall i | 0 <= i < |p|
          ensures p[i] < |fs| && fs[p[i]].Some? && ls[i] == labels[p[i]] + fs[p[i]].value
        {
          if i > 0 { assert p[i] == q[i - 1]; }
        }
      }
    }
  }

  /** The pushes for fields k, k+1, ... applied in turn to `lines`. */
  function PushFrom(lines: seq<string>, labels: seq<string>, fs: seq<Option<string>>, k: nat): seq<string>
    requires |labels| == |fs| && k <= |fs|
    decreases |fs| - k
  {
    if k == |fs| then lines else PushFrom(lines + Line(labels, fs, k), labels, fs, k + 1)
  }

  /** Pushing field by field appends exactly the lines of the truthy fields. */
  lemma {:induction false} PushFromAppends(lines: seq<string>, labels: seq<string>, fs: seq<Option<string>>, k: nat)
    requires |labels| == |fs| && k <= |fs|
    ensures PushFrom(lines, labels, fs, k) == lines + PresentLines(labels, fs, k)
    decreases |fs| - k
  {
    if k < |fs| {
      var line, rest := Line(labels, fs, k), PresentLines(labels, fs, k + 1);
      PushFromAppends(lines + line, labels, fs, k + 1);
      assert lines + line + rest == lines + (line + rest);
    }
  }

  /** `if (value) lines.push(`${prefix}${value}`)`, for the field at index
      k of the summary: one step of the pushes `PushFrom` describes. */
  method PushIfTruthy(lines: seq<string>, prefix: string, value: Option<string>,
                      ghost r: EtsiValidationReportInfo, ghost k: nat) returns (out: seq<string>)
    requires k < |FieldLabels| && prefix == FieldLabels[k] && value == Fields(r)[k]
    ensures out == lines + if Truthy(value) then [prefix + value.value] else []
    ensures PushFrom(out, FieldLabels, Fields(r), k + 1) == PushFrom(lines, FieldLabels, Fields(r), k)
  {
    out := lines;
    if Truthy(value) {
      out := out + [prefix + value.value];
    }
  }

  /** Builds the summary by pushing one line per truthy field, as the view does. */
  method BuildCopyText(report: Option<EtsiValidationReportInfo>) returns (text: string)
    ensures text == CopyText(report)
  {
    if report.None? {
      return "";
    }
    var r := report.value;
    var lines: seq<string> := [];
    lines := lines + [SummaryHeader];
    lines := lines + ["available: " + BoolText(r.available)];
    ghost var base := lines;
    assert base == [SummaryHeader, "available: " + BoolText(r.available)];
    lines := PushFields(lines, r);
    PushFromAppends(base, FieldLabels, Fields(r), 0);
    assert lines == SummaryLines(r);
    text := Join(lines, "\n");
  }

  /** The ten conditional pushes, one per optional field, in field order. */
  method PushFields(lines: seq<string>, r: EtsiValidationReportInfo) returns (out: seq<string>)
    ensures out == PushFrom(lines, FieldLabels, Fields(r), 0)
  {
    out := lines;
    out := PushIfTruthy(out, FieldLabels[0], MainIndicationText(r), r, 0);
    out := PushIfTruthy(out, FieldLabels[1], r.validationTime, r, 1);
    out := PushIfTruthy(out, FieldLabels[2], r.poeTime, r, 2);
    out := PushIfTruthy(out, FieldLabels[3], r.policy, r, 3);
    out := PushIfTruthy(out, FieldLabels[4], r.algorithm, r, 4);
    out := PushIfTruthy(out, FieldLabels[5], r.signerInfo, r, 5);
    out := PushIfTruthy(out, FieldLabels[6], r.cert, r, 6);
    out := PushIfTruthy(out, FieldLabels[7], r.certNotAfter, r, 7);
    out := PushIfTruthy(out, FieldLabels[8], r.timeStampEvidence, r, 8);
    out := PushIfTruthy(out, FieldLabels[9], r.message, r, 9);
  }

  /** The summary is empty exactly without a report; otherwise it opens with
      the header line and the availability line and ends with its last line,
      with no trailing separator. */
  lemma CopyTextShape(report: Option<EtsiValidationReportInfo>)
    ensures CopyText(report) == "" <==> report.None?
    ensures report.Some? ==>
      StartsWith(CopyText(report), SummaryHeader + "\n" + "available: " + BoolText(report.value.available))
    ensures report.Some? ==>
      var lines := SummaryLines(report.value);
      EndsWith(CopyText(report), lines[|lines| - 1])
  {
    if report.Some? {
      var r := report.value;
      var lines := SummaryLines(r);
      var second := "available: " + BoolText(r.available);
      var t := Join(lines[1..], "\n");
      JoinEnds(lines, "\n");
      assert StartsWith(t, second) by {
        if |lines| == 2 {
          assert t == second;
        } else {
          JoinEnds(lines[1..], "\n");
        }
      }
      var text := SummaryHeader + "\n" + t;
      assert CopyText(report) == text;
      assert text[..|SummaryHeader + "\n" + second|] == SummaryHeader + "\n" + second;
    }
  }

  // ---- the whole view ----

  /** `value ?? 'N/A'`: only null is replaced; an empty string stays empty. */
  function OrNotAvailable(v: Option<string>): string {
    if v.Some? then v.value else "N/A"
  }

  /** What the view shows: the fallback panel, or the header with its two
      buttons, the signer and indication badges and the detail grid. */
  datatype Panel =
    | Unavailable
    | Available(
        signer: string,
        indication: string,
        passed: bool,
        downloadLink: Option<string>,
        downloadDisabled: bool,
        copyText: string,
        // `disabled={!copyText}`; never set here, since the summary of a
        // present report is never empty (`CopyTextShape`)
        copyDisabled: bool,
        message: Option<string>,
        details: seq<string>)

  function Render(report: Option<EtsiValidationReportInfo>, fileName: Option<string>, downloadUrl: Option<string>): (p: Panel)
    ensures p.Unavailable? <==> ShowsUnavailable(report)
    ensures p.Available? ==> (p.passed <==> report.value.mainIndication in {Some(TotalPassed), Some(Passed)})
    ensures p.Available? ==> p.downloadLink == EtsiDownloadUrl(downloadUrl, fileName)
    ensures p.Available? ==> (p.downloadDisabled <==> !Truthy(fileName))
    ensures p.Available? ==> !p.copyDisabled
    ensures p.Available? ==> (p.message.Some? <==> Truthy(report.value.message))
    ensures p.Available? ==> p.message.Some? ==> p.message == report.value.message
    ensures p.Available? ==> p.copyText == CopyText(report) && p.copyText != ""
    ensures p.Available? ==> p.indication == Indication(report)
    ensures p.Available? ==> p.signer == OrNotAvailable(report.value.signerInfo)
    ensures p.Available? ==>
      var r := report.value;
      p.details == [OrNotAvailable(r.validationTime), OrNotAvailable(r.poeTime), OrNotAvailable(r.algorithm),
                    OrNotAvailable(r.cert), OrNotAvailable(r.certNotAfter), OrNotAvailable(r.timeStampEvidence)]
  {
    if ShowsUnavailable(report) then Unavailable
    else
      var r := report.value;
      IndicationPassed(report);
      CopyTextShape(report);
      Available(
        OrNotAvailable(r.signerInfo),
        Indication(report),
        IsPassed(Indication(report)),
        EtsiDownloadUrl(downloadUrl, fileName),
        DownloadDisabled(downloadUrl, fileName),
        CopyText(report),
        CopyText(report) == "",
        if Truthy(r.message) then r.message else None,
        [OrNotAvailable(r.validationTime), OrNotAvailable(r.poeTime), OrNotAvailable(r.algorithm),
         OrNotAvailable(r.cert), OrNotAvailable(r.certNotAfter), OrNotAvailable(r.timeStampEvidence)])
  }
}
