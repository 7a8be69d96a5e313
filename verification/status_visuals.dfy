/** The status badge shared by the diagnostic tree and the detailed report:
    a status string is mapped to an icon and a colour. */
module StatusVisuals {
  import opened Types

  datatype Icon = CheckCircle | XCircle | ExclamationTriangle | InformationCircle
  datatype Color = Green | Red | Yellow | Gray

  datatype Visual = Visual(icon: Icon, color: Color)

  /** `getStatusVisuals(status)`: three exact spellings have their own badge,
      every other string (`INDETERMINATE` included) falls to the default. */
  function Visuals(status: string): (v: Visual)
    ensures v.color == Green <==> status == "PASSED"
    ensures v.color == Red <==> status == "FAILED"
    ensures v.color == Yellow <==> status == "WARNING"
  {
    if status == "PASSED" then Visual(CheckCircle, Green)
    else if status == "FAILED" then Visual(XCircle, Red)
    else if status == "WARNING" then Visual(ExclamationTriangle, Yellow)
    else Visual(InformationCircle, Gray)
  }

  /** Icon and colour always come as one of the four fixed pairs. */
  predicate Paired(v: Visual) {
    || v == Visual(CheckCircle, Green)
    || v == Visual(XCircle, Red)
    || v == Visual(ExclamationTriangle, Yellow)
    || v == Visual(InformationCircle, Gray)
  }

  lemma VisualsPaired(status: string)
    ensures Paired(Visuals(status))
  {
  }

  /** On the five statuses a report can carry: only `PASSED` is green and
      only `FAILED` red; `TOTAL_PASSED`, `TOTAL_FAILED` and `INDETERMINATE`
      all get the grey information badge, and the yellow warning badge is
      never reached. */
  lemma StatusVisuals(s: VerificationStatus)
    ensures Visuals(StatusName(s)).color == Green <==> s == Passed
    ensures Visuals(StatusName(s)).color == Red <==> s == Failed
    ensures Visuals(StatusName(s)).color == Gray <==> s in {TotalPassed, TotalFailed, Indeterminate}
    ensures Visuals(StatusName(s)).color != Yellow
  {
  }
}
