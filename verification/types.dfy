/** The shared data model: the view switch, the signature options and
    validation policy as the shared type declarations spell them, and the
    verification result with its four nullable report views and the
    recursive diagnostic tree. Each string union becomes a datatype, with
    the spelling of each value and the reverse reading of a string. */
module Types {
  import opened JsRuntime

  datatype View = Create | Verify

  function ViewName(v: View): string {
    match v
    case Create => "CREATE"
    case Verify => "VERIFY"
  }

  function ParseView(s: string): (r: Option<View>)
    ensures r.Some? ==> ViewName(r.value) == s
    ensures r.None? ==> forall v: View :: ViewName(v) != s
  {
    if s == "CREATE" then Some(Create)
    else if s == "VERIFY" then Some(Verify)
    else None
  }

  datatype Container = NoContainer | AsicS | AsicE

  function ContainerName(c: Container): string {
    match c
    case NoContainer => "NO"
    case AsicS => "ASiC-S"
    case AsicE => "ASiC-E"
  }

  function ParseContainer(s: string): (r: Option<Container>)
    ensures r.Some? ==> ContainerName(r.value) == s
    ensures r.None? ==> forall c: Container :: ContainerName(c) != s
  {
    if s == "NO" then Some(NoContainer)
    else if s == "ASiC-S" then Some(AsicS)
    else if s == "ASiC-E" then Some(AsicE)
    else None
  }

  datatype SignatureFormat = XAdES | CAdES | PAdES | JAdES

  function FormatName(f: SignatureFormat): string {
    match f
    case XAdES => "XAdES"
    case CAdES => "CAdES"
    case PAdES => "PAdES"
    case JAdES => "JAdES"
  }

  function ParseFormat(s: string): (r: Option<SignatureFormat>)
    ensures r.Some? ==> FormatName(r.value) == s
    ensures r.None? ==> forall f: SignatureFormat :: FormatName(f) != s
  {
    if s == "XAdES" then Some(XAdES)
    else if s == "CAdES" then Some(CAdES)
    else if s == "PAdES" then Some(PAdES)
    else if s == "JAdES" then Some(JAdES)
    else None
  }

  datatype Packaging = Enveloped | Enveloping | Detached | InternallyDetached

  function PackagingName(p: Packaging): string {
    match p
    case Enveloped => "ENVELOPED"
    case Enveloping => "ENVELOPING"
    case Detached => "DETACHED"
    case InternallyDetached => "INTERNALLY_DETACHED"
  }

  function ParsePackaging(s: string): (r: Option<Packaging>)
    ensures r.Some? ==> PackagingName(r.value) == s
    ensures r.None? ==> forall p: Packaging :: PackagingName(p) != s
  {
    if s == "ENVELOPED" then Some(Enveloped)
    else if s == "ENVELOPING" then Some(Enveloping)
    else if s == "DETACHED" then Some(Detached)
    else if s == "INTERNALLY_DETACHED" then Some(InternallyDetached)
    else None
  }

  datatype Level = BB | BT | BLT | BLTA

  function LevelName(l: Level): string {
    match l
    case BB => "B-B"
    case BT => "B-T"
    case BLT => "B-LT"
    case BLTA => "B-LTA"
  }

  function ParseLevel(s: string): (r: Option<Level>)
    ensures r.Some? ==> LevelName(r.value) == s
    ensures r.None? ==> forall l: Level :: LevelName(l) != s
  {
    if s == "B-B" then Some(BB)
    else if s == "B-T" then Some(BT)
    else if s == "B-LT" then Some(BLT)
    else if s == "B-LTA" then Some(BLTA)
    else None
  }

  datatype DigestAlgorithm = Sha1 | Sha256 | Sha384 | Sha512

  function DigestName(d: DigestAlgorithm): string {
    match d
    case Sha1 => "SHA-1"
    case Sha256 => "SHA-256"
    case Sha384 => "SHA-384"
    case Sha512 => "SHA-512"
  }

  function ParseDigest(s: string): (r: Option<DigestAlgorithm>)
    ensures r.Some? ==> DigestName(r.value) == s
    ensures r.None? ==> forall d: DigestAlgorithm :: DigestName(d) != s
  {
    if s == "SHA-1" then Some(Sha1)
    else if s == "SHA-256" then Some(Sha256)
    else if s == "SHA-384" then Some(Sha384)
    else if s == "SHA-512" then Some(Sha512)
    else None
  }

  datatype SignatureOptions = SignatureOptions(
    container: Container,
    signatureFormat: SignatureFormat,
    packaging: Packaging,
    level: Level,
    digestAlgorithm: DigestAlgorithm,
    allowExpiredCertificate: bool,
    addContentTimestamp: bool)

  datatype SignatureResult = SignatureResult(result: string, fileName: string, documentBase64: string)

  datatype ValidationPolicy = ValidationPolicy(
    container: Container,
    signatureFormat: SignatureFormat,
    signatureLevel: Level,
    validationTime: string,
    trustAnchor: string)

  /** The five statuses the backend may report; `WARNING` is not one. */
  datatype VerificationStatus = TotalPassed | Passed | TotalFailed | Failed | Indeterminate

  function StatusName(s: VerificationStatus): string {
    match s
    case TotalPassed => "TOTAL_PASSED"
    case Passed => "PASSED"
    case TotalFailed => "TOTAL_FAILED"
    case Failed => "FAILED"
    case Indeterminate => "INDETERMINATE"
  }

  function ParseStatus(s: string): (r: Option<VerificationStatus>)
    ensures r.Some? ==> StatusName(r.value) == s
    ensures r.None? ==> forall v: VerificationStatus :: StatusName(v) != s
  {
    if s == "TOTAL_PASSED" then Some(TotalPassed)
    else if s == "PASSED" then Some(Passed)
    else if s == "TOTAL_FAILED" then Some(TotalFailed)
    else if s == "FAILED" then Some(Failed)
    else if s == "INDETERMINATE" then Some(Indeterminate)
    else None
  }

  /** Exactly five spellings are statuses, and the old `WARNING` is not. */
  lemma StatusSpellings()
    ensures forall s :: ParseStatus(s).Some? <==>
      s in {"TOTAL_PASSED", "PASSED", "TOTAL_FAILED", "FAILED", "INDETERMINATE"}
    ensures ParseStatus("WARNING") == None
  {
  }

  datatype SimpleReport = SimpleReport(
    indication: VerificationStatus,
    message: string,
    subIndication: Option<string>,
    validationTime: Option<string>,
    signatureCount: int)

  datatype DetailedReportItem = DetailedReportItem(name: string, status: VerificationStatus, message: string)

  /** A diagnostic-tree node. Being an inductive datatype, every tree is
      finite and acyclic. */
  datatype DiagnosticTreeNode = DiagnosticTreeNode(
    name: string,
    status: VerificationStatus,
    message: string,
    children: ChildList)

  /** `children?: DiagnosticTreeNode[] | null`: absent and null are both
      `Absent`, otherwise an ordered (possibly empty) list. */
  datatype ChildList = Absent | Listed(nodes: seq<DiagnosticTreeNode>)

  datatype EtsiValidationReportInfo = EtsiValidationReportInfo(
    available: bool,
    message: Option<string>,
    mainIndication: Option<VerificationStatus>,
    validationTime: Option<string>,
    poeTime: Option<string>,
    policy: Option<string>,
    algorithm: Option<string>,
    signerInfo: Option<string>,
    cert: Option<string>,
    certNotAfter: Option<string>,
    timeStampEvidence: Option<string>)

  /** One verification outcome; each view and both link parts are nullable
      independently of one another. `message` is not among the declared
      properties, but the verification service sets it (its own rejection of
      a malformed signature block, or the back end's answer), and the
      verification page displays it; `None` stands for an absent property. */
  datatype VerificationResult = VerificationResult(
    isValid: bool,
    message: Option<string>,
    simpleReport: Option<SimpleReport>,
    detailedReport: Option<seq<DetailedReportItem>>,
    diagnosticTree: Option<DiagnosticTreeNode>,
    etsiValidationReport: Option<EtsiValidationReportInfo>,
    fileName: Option<string>,
    downloadUrl: Option<string>)

  /** Number of nodes in a tree and in a list of trees. */
  function TreeSize(n: DiagnosticTreeNode): (r: nat)
    ensures r >= 1
    decreases n
  {
    1 + match n.children
        case Absent => 0
        case Listed(cs) => ForestSize(cs)
  }

  function ForestSize(cs: seq<DiagnosticTreeNode>): (r: nat)
    ensures r >= |cs|
    decreases cs
  {
    if cs == [] then 0 else TreeSize(cs[0]) + ForestSize(cs[1..])
  }
}
