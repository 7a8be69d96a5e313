# KR-DSS web front end — a verified model

KR-DSS-WEB is a browser front end for creating and verifying digital
signatures. The user signs a document on the creation page or submits a
document and a signature block on the verification page. The back end's
verdict is then shown in four tabbed views:

- a simple report;
- a detailed report;
- a recursive diagnostic tree;
- an ETSI validation-report summary, with a download link and a text summary
  for the clipboard.

A separate view shows a raw ETS XML report with three facts read out of it by
regular expressions. A signed document can be downloaded under a name and
MIME type guessed from the server's file name.

This project models the logic behind those screens. Each source file is one
Dafny module:

- The shared type declarations become datatypes. Each string union has a
  spelling function and a reverse reading of a string. The diagnostic tree is
  an inductive datatype.
- The report views are pure functions from the report to what is shown (rows,
  entries, panels, texts), with lemmas about what they show.
- Some JavaScript built-ins are written out: `String.prototype.replace` with a
  string pattern (first occurrence only), `trim`, `join`, `lastIndexOf`,
  `encodeURIComponent`, `Number.prototype.toString(16)` with `padStart`, and
  regular-expression search (leftmost match, greedy runs, case-insensitive
  test). Nullable values and truthiness are also modelled.
- The forms are classes. Each keeps its state record and the list of records
  it has handed to its parent.
- The creation and verification pages are classes whose methods follow the
  handlers. An awaited call is split into its synchronous start (`Begin`) and
  its completion (`Complete`). The outcome of the remote call is a parameter:
  a resolved value or a thrown value.

Some places where the code and its declared types disagree are modelled as the
code behaves:

- The options form uses the spellings `No`, `Enveloped` and `SHA256`, where
  the declared union expects `NO`, `ENVELOPED` and `SHA-256`.
- The policy form keeps `validationModel` and `digestAlgorithmRequirement`,
  which the declared policy type does not have.
- The ETSI view reads a `downloadUrl` prop while declaring `backendBase`. A
  null `downloadUrl` is spelled `null` inside the link.
- The verification page displays a `message` property of the result that the
  declared result type does not have. The verification service sets it, so the
  modelled result carries it as an optional field.

## Model

| member | source | states |
|---|---|---|
| Types.ParseView | types.ts:2-5 | A string reads as a view exactly when it is the spelling of one; there are two views, `CREATE` and `VERIFY` |
| Types.ParseContainer | types.ts:8 | A container string is one of the three declared spellings or none |
| Types.ParseFormat | types.ts:9 | A signature format is one of four declared spellings or none |
| Types.ParsePackaging | types.ts:10 | A packaging is one of four declared spellings or none |
| Types.ParseLevel | types.ts:11 | A level is one of four declared spellings or none |
| Types.ParseDigest | types.ts:12 | A digest algorithm is one of `SHA-1` … `SHA-512` or none |
| Types.ParseStatus | types.ts:36 | A status string is one of the five declared spellings or none |
| Types.StatusSpellings | types.ts:35-36 | Exactly five strings are statuses, and `WARNING` (commented out of the union) is not one |
| Types.TreeSize | types.ts:52-57 | Every diagnostic-tree node counts at least itself |
| Types.ForestSize | types.ts:56 | A list of subtrees has at least as many nodes as entries |
| FileUtils.ToString16 | utils/fileUtils.ts:11 | `toString(16)` of a non-negative number is non-empty and only uses lower-case hexadecimal digits |
| FileUtils.ByteHexDigits | utils/fileUtils.ts:11 | A byte renders as exactly its high and low nibble, so a byte below 16 gets a leading `0` |
| FileUtils.DigestHexCons | utils/fileUtils.ts:11 | The rendering of a digest is the first byte's two digits followed by the rendering of the rest |
| FileUtils.DigestHexLayout | utils/fileUtils.ts:10-11 | The hexadecimal string is twice the digest's length, characters 2i and 2i+1 encode byte i, and every character is in `0-9a-f` |
| FileUtils.DigestHexRoundTrip | utils/fileUtils.ts:10-11 | Reading two digits per byte gives the digest back |
| FileUtils.DigestHexInjective | utils/fileUtils.ts:10-11 | Two digests with the same rendering are equal |
| JsRuntime.LastIndexOf | components/ResultDisplay.tsx:61 | `lastIndexOf` gives the last index holding the character, or -1 when none does |
| JsRuntime.ReplaceFirst | components/reports/SimpleReport.tsx:21 | `replace` with a one-character pattern keeps the length |
| JsRuntime.ReplaceFirstAbsent | components/reports/SimpleReport.tsx:21 | Without an occurrence of the pattern, `replace` changes nothing |
| JsRuntime.ReplaceFirstAt | components/reports/SimpleReport.tsx:21 | With its first occurrence at index i, `replace` changes exactly that character |
| JsRuntime.ReplaceFirstSplit | components/reports/SimpleReport.tsx:21 | Only the first occurrence is replaced; anything after it is kept |
| JsRuntime.TrimStart | components/reports/EtsValidationReport.tsx:13 | The result is a suffix of the input that starts with a non-white-space character, and everything cut off is white space |
| JsRuntime.TrimEnd | components/reports/EtsValidationReport.tsx:13 | The result is a prefix that ends with a non-white-space character, and everything cut off is white space |
| JsRuntime.Trim | components/reports/EtsValidationReport.tsx:13 | Neither end of a trimmed text is white space |
| JsRuntime.TrimIsSlice | components/reports/EtsValidationReport.tsx:13 | Trimming keeps one contiguous piece of the input |
| JsRuntime.StartsWithIgnoringCaseIff | components/reports/EtsiValidationReport.tsx:35 | The prefix test of an `i`-flag regular expression matches position-wise up to ASCII case |
| JsRuntime.ContainsIgnoringCaseIff | components/reports/EtsiValidationReport.tsx:35 | `/pat/i.test(s)` holds exactly when the pattern matches at some offset |
| JsRuntime.MissingFirstCharacter | components/reports/EtsiValidationReport.tsx:35 | A text with no character folding to the pattern's first character does not match |
| JsRuntime.JoinAppend | components/reports/EtsiValidationReport.tsx:70 | Joining one more part adds exactly one separator and that part |
| JsRuntime.JoinEnds | components/reports/EtsiValidationReport.tsx:70 | A join starts with the first part and a separator and ends with the last part: no trailing separator |
| PercentEncoding.UpperHexDigit | components/reports/EtsiValidationReport.tsx:42 | An escape digit is itself an unreserved character |
| PercentEncoding.Utf8 | components/reports/EtsiValidationReport.tsx:42 | A code point takes one to four UTF-8 bytes, and one byte, equal to the code, exactly below 0x80 |
| PercentEncoding.EscapeBytes | components/reports/EtsiValidationReport.tsx:42 | Each byte becomes three characters, all `%` or unreserved |
| PercentEncoding.EncodeChar | components/reports/EtsiValidationReport.tsx:42 | An encoded character is made of `%` and unreserved characters only |
| PercentEncoding.Encode | components/reports/EtsiValidationReport.tsx:42 | `encodeURIComponent` outputs only `%` and unreserved characters and never shortens its input |
| PercentEncoding.EncodeIdentityOnUnreserved | components/reports/EtsiValidationReport.tsx:42 | Text made of unreserved characters is left as it is |
| PercentEncoding.EncodeHasNoSlashOrSpace | components/reports/EtsiValidationReport.tsx:42 | An encoded file name holds no `/` and no space |
| PercentEncoding.DecodeEncodeChar | components/reports/EtsiValidationReport.tsx:42 | Decoding an encoded ASCII character gives it back, whatever follows |
| PercentEncoding.EncodeRoundTrip | components/reports/EtsiValidationReport.tsx:42 | Percent-decoding undoes the encoding of ASCII text |
| PercentEncoding.SpaceExample | components/reports/EtsiValidationReport.tsx:42 | A space is encoded as `%20` and the dot is kept |
| StatusVisuals.Visuals | components/reports/DiagnosticTree.tsx:11-23 | Green exactly for `PASSED`, red exactly for `FAILED`, yellow exactly for `WARNING` |
| StatusVisuals.VisualsPaired | components/reports/DetailedReport.tsx:9-21 | Icon and colour always come as one of the four fixed pairs |
| StatusVisuals.StatusVisuals | components/reports/DiagnosticTree.tsx:11-23 | Of the five statuses only `PASSED` is green and only `FAILED` is red; `TOTAL_PASSED`, `TOTAL_FAILED` and `INDETERMINATE` are grey; yellow is never reached |
| SimpleReport.ToneOf | components/reports/SimpleReport.tsx:10-11 | Success exactly for `TOTAL_PASSED`, failure exactly for `TOTAL_FAILED` |
| SimpleReport.Heading | components/reports/SimpleReport.tsx:21 | The heading has the indication's length |
| SimpleReport.Render | components/reports/SimpleReport.tsx:9-23 | A null report has no rendering (it is dereferenced unguarded); otherwise the panel shows the report's message, the tone `ToneOf` and the heading `Heading` of its indication, and that tone's icon and colour |
| SimpleReport.NeutralIndications | components/reports/SimpleReport.tsx:13-15 | The yellow panel appears exactly for `PASSED`, `FAILED` and `INDETERMINATE`; success and failure never coincide |
| SimpleReport.HeadingTotalPassed | components/reports/SimpleReport.tsx:21 | `TOTAL_PASSED` is headed `TOTAL PASSED` |
| SimpleReport.HeadingTotalFailed | components/reports/SimpleReport.tsx:21 | `TOTAL_FAILED` is headed `TOTAL FAILED` |
| SimpleReport.HeadingUnchanged | components/reports/SimpleReport.tsx:21 | Statuses without an underscore are shown unchanged |
| SimpleReport.HeadingHasNoUnderscore | components/reports/SimpleReport.tsx:21 | No heading shows an underscore, since no status has two |
| DetailedReport.Entries | components/reports/DetailedReport.tsx:28-39 | One entry per item, in the items' order, each the item's projection |
| DetailedReport.Render | components/reports/DetailedReport.tsx:23-28 | A null report has no rendering (`map` is called unguarded); otherwise the view shows exactly `Entries` of the items, one per item |
| DetailedReport.EntriesShowItems | components/reports/DetailedReport.tsx:29-35 | Each entry shows its item's name and message unchanged, and never the yellow badge |
| DetailedReport.EntriesAppend | components/reports/DetailedReport.tsx:28 | The entries of a concatenation are the concatenation of the entries |
| DiagnosticTree.NodeRow | components/reports/DiagnosticTree.tsx:27-41 | A row shows its node at its level; connector and children's margin appear exactly on nodes with children; `└─` exactly on such nodes below the root |
| DiagnosticTree.Badge | components/reports/DiagnosticTree.tsx:26 | A row is green exactly for `PASSED`, red exactly for `FAILED`, never yellow |
| DiagnosticTree.Render | components/reports/DiagnosticTree.tsx:25-49 | Every node of the subtree gets exactly one row, its own row first |
| DiagnosticTree.RenderForest | components/reports/DiagnosticTree.tsx:42-44 | A list of subtrees yields one row per node |
| DiagnosticTree.RenderRows | components/reports/DiagnosticTree.tsx:32-44 | Every row is indented 24 pixels per level, the connector never sits at the root, the children's margin is indent + 10, and descendants are deeper than their ancestor |
| DiagnosticTree.RenderForestRows | components/reports/DiagnosticTree.tsx:42-44 | Every row of the children is well drawn and at least one level deeper |
| DiagnosticTree.RenderTree | components/reports/DiagnosticTree.tsx:51-56 | A null tree has no rendering; otherwise the rows are the root's subtree drawn from level 0 (`Render(root, 0)`), one per node, so the placement lemmas describe the shown tree |
| DiagnosticTree.ForestSizeAppend | components/reports/DiagnosticTree.tsx:42-44 | Node counts add up over concatenated child lists |
| DiagnosticTree.PlacedFirst | components/reports/DiagnosticTree.tsx:42-44 | The first child's rows open the children's rows |
| DiagnosticTree.PlacedNext | components/reports/DiagnosticTree.tsx:42-44 | Each following child's rows come right after the previous children's rows |
| DiagnosticTree.ForestPlacement | components/reports/DiagnosticTree.tsx:42-44 | Child i's subtree is one contiguous block right after children 0 … i-1, in order |
| DiagnosticTree.ChildPlacement | components/reports/DiagnosticTree.tsx:40-44 | Below a node, child i is drawn one level deeper, starting after the node's row and the earlier children's subtrees |
| DiagnosticTree.LeafIsOneRow | components/reports/DiagnosticTree.tsx:27 | A node whose children are absent, null or empty is exactly one row |
| EtsiValidationReport.ShowsUnavailable | components/reports/EtsiValidationReport.tsx:80 | The fallback panel is shown exactly when there is no report or it is not available |
| EtsiValidationReport.TotalPassedPasses | components/reports/EtsiValidationReport.tsx:35 | `TOTAL_PASSED` passes the `/passed/i` test |
| EtsiValidationReport.PassedPasses | components/reports/EtsiValidationReport.tsx:35 | `PASSED` passes |
| EtsiValidationReport.TotalFailedFails | components/reports/EtsiValidationReport.tsx:35 | `TOTAL_FAILED` does not pass |
| EtsiValidationReport.FailedFails | components/reports/EtsiValidationReport.tsx:35 | `FAILED` does not pass |
| EtsiValidationReport.IndeterminateFails | components/reports/EtsiValidationReport.tsx:35 | `INDETERMINATE` does not pass |
| EtsiValidationReport.StatusPassed | components/reports/EtsiValidationReport.tsx:35 | Of the five statuses exactly `TOTAL_PASSED` and `PASSED` pass |
| EtsiValidationReport.IndicationPassed | components/reports/EtsiValidationReport.tsx:34-35 | The badge is green exactly for a present `TOTAL_PASSED` or `PASSED`; a missing report or indication reads `INDETERMINATE` |
| EtsiValidationReport.EtsiDownloadUrl | components/reports/EtsiValidationReport.tsx:37-43 | No link exactly without a truthy file name; a link starts with `/kr-dss` and ends with the encoded file name |
| EtsiValidationReport.DownloadDisabled | components/reports/EtsiValidationReport.tsx:99 | The download button is disabled exactly when there is no truthy file name |
| EtsiValidationReport.EtsiUrlLastSegment | components/reports/EtsiValidationReport.tsx:42 | The encoded file name is the whole last path segment, and for an ASCII name decoding it gives the name back |
| EtsiValidationReport.EtsiUrlVerbatimBase | components/reports/EtsiValidationReport.tsx:42 | The base is inserted verbatim: a trailing `/` gives `//etsi/`, a null base gives `/kr-dssnull/etsi/` |
| EtsiValidationReport.Fields | components/reports/EtsiValidationReport.tsx:60-69 | There is one optional field per summary label |
| EtsiValidationReport.PresentIndicesSpec | components/reports/EtsiValidationReport.tsx:60-69 | The fields listed are exactly the truthy ones, in increasing field order |
| EtsiValidationReport.PresentLinesFollowIndices | components/reports/EtsiValidationReport.tsx:60-69 | Line i of the optional part is `label: value` of the i-th truthy field |
| EtsiValidationReport.PushFromAppends | components/reports/EtsiValidationReport.tsx:60-69 | The conditional pushes append exactly the lines of the truthy fields |
| EtsiValidationReport.PushIfTruthy | components/reports/EtsiValidationReport.tsx:60 | One conditional push adds the line exactly when the value is truthy |
| EtsiValidationReport.PushFields | components/reports/EtsiValidationReport.tsx:60-69 | The ten pushes, in field order, produce the lines the summary specifies |
| EtsiValidationReport.BuildCopyText | components/reports/EtsiValidationReport.tsx:55-71 | The step-by-step builder produces exactly the specified summary: `""` without a report, else the header, the availability line and the truthy fields joined by newlines |
| EtsiValidationReport.CopyTextShape | components/reports/EtsiValidationReport.tsx:56-70 | The summary is empty exactly without a report; otherwise it opens with the header and availability lines and ends with its last line, with no trailing newline |
| EtsiValidationReport.Render | components/reports/EtsiValidationReport.tsx:80-174 | The fallback panel exactly when unavailable; otherwise the pass badge, the indication text, the signer or `N/A`, the six details or `N/A`, the link, a download button disabled exactly without a file name, an enabled copy button that copies the non-empty `CopyText` summary, and the report's message shown exactly when truthy |
| EtsValidationReport.BreakTags | components/reports/EtsValidationReport.tsx:13 | After the global `><` replacement no `>` is directly followed by `<`, and the first character is kept |
| EtsValidationReport.WithoutNewlinesAppend | components/reports/EtsValidationReport.tsx:13 | Dropping newlines distributes over concatenation |
| EtsValidationReport.BreakTagsOnlyAddsNewlines | components/reports/EtsValidationReport.tsx:13 | The replacement only inserts newlines: without newlines the output equals the input |
| EtsValidationReport.NoAdjacentTagsInSlice | components/reports/EtsValidationReport.tsx:13 | A piece of a text without adjacent tags has none either |
| EtsValidationReport.BreakTagsIdentity | components/reports/EtsValidationReport.tsx:13 | A text without `><` is left unchanged by the replacement |
| EtsValidationReport.BreakTagsAtFirst | components/reports/EtsValidationReport.tsx:13 | At the first `><` (the text before has none), the pair becomes `>`, newline, `<`; the text before it is kept and the rest is replaced in the same way |
| EtsValidationReport.PrettyFormatXml | components/reports/EtsValidationReport.tsx:12-14 | The shown XML is the input with every `><` broken by a newline, then trimmed; it has no two tags on one line and no white space at either end |
| EtsValidationReport.Run | components/reports/EtsValidationReport.tsx:21-31 | A greedy negated class takes the longest run of allowed characters: it stops at a stop character or at the end |
| EtsValidationReport.AttrValue | components/reports/EtsValidationReport.tsx:21-27 | A captured attribute value is non-empty and holds no quote |
| EtsValidationReport.LastAttrIn | components/reports/EtsValidationReport.tsx:21-26 | The attribute match chosen within a range is the last one in it |
| EtsValidationReport.TagAttrAtSpec | components/reports/EtsValidationReport.tsx:21-26 | A match starts with the tag name, has no `>` before the attribute, and is the last such attribute before the tag's first `>` |
| EtsValidationReport.LastAttrInTag | components/reports/EtsValidationReport.tsx:21-26 | The last attribute inside a run without `>` precedes the tag's `>`, and any later attribute follows it |
| EtsValidationReport.SearchTagAttr | components/reports/EtsValidationReport.tsx:21-26 | The search returns the leftmost matching position, or none when no position matches |
| EtsValidationReport.SignatureAttribute | components/reports/EtsValidationReport.tsx:21-27 | An extracted attribute value is non-empty and holds no quote |
| EtsValidationReport.SignatureAttributeSpec | components/reports/EtsValidationReport.tsx:21-27 | The value is the capture of the leftmost match and is absent exactly when nothing matches; then the id shows `Unknown` and the format `N/A` |
| EtsValidationReport.SearchIndication | components/reports/EtsValidationReport.tsx:31 | The element search returns the leftmost match, or none when no position matches |
| EtsValidationReport.IndicationText | components/reports/EtsValidationReport.tsx:31-32 | The indication is never empty: the element's text, free of `<`, or `Unknown` when there is no element |
| EtsValidationReport.MissingIndicationNotPassed | components/reports/EtsValidationReport.tsx:31-35 | A report without an indication element shows `Unknown`, which is not passed |
| ResultDisplay.CharCodesToBytes | components/ResultDisplay.tsx:31-35 | One byte per character, each the character code modulo 256; for decoded text (codes below 256) exactly the code |
| ResultDisplay.InferFileTypeBySuffix | components/ResultDisplay.tsx:38-53 | Each suffix alone decides the type (`.p7m` counts as `.p7s`), and the default applies exactly when none of them ends the name |
| ResultDisplay.BaseName | components/ResultDisplay.tsx:59-62 | Without a truthy original name the base is `document`; a name without `.` is kept; otherwise the base is the part before the last `.` |
| ResultDisplay.DownloadNameSpec | components/ResultDisplay.tsx:64 | A server file name is used as is; without one the name is the base plus `.bin` |
| ResultDisplay.HandleDownload | components/ResultDisplay.tsx:27-64 | Nothing happens exactly without a result or document; otherwise the bytes of the decoded text, the inferred MIME type and the download name |
| SignatureOptionsForm.Get | components/SignatureOptions.tsx:26 | String keys hold strings and the two flags hold booleans |
| SignatureOptionsForm.FieldsDetermineOptions | components/SignatureOptions.tsx:26-28 | Two option records with the same field values are equal |
| SignatureOptionsForm.SetSpec | components/SignatureOptions.tsx:26-28 | A change sets its field and leaves every other field alone; container and format changes never touch packaging |
| SignatureOptionsForm.SetIdempotent | components/SignatureOptions.tsx:26-28 | Making a change twice is making it once, and setting a field to its own value changes nothing |
| SignatureOptionsForm.SetCommutes | components/SignatureOptions.tsx:26-28 | Changes to different fields commute |
| SignatureOptionsForm.CheckedCount | components/SignatureOptions.tsx:40 | No more buttons are checked than there are in the group |
| SignatureOptionsForm.CheckedCountSpec | components/SignatureOptions.tsx:40 | In a group of distinct choices exactly one button is checked when the value is offered, none otherwise |
| SignatureOptionsForm.InitialOptionsOffered | components/SignatureOptions.tsx:4-12 | The initial record checks exactly one button in every radio group and selects an offered level |
| SignatureOptionsForm.InitialOptionsVersusDeclaredTypes | components/SignatureOptions.tsx:4-12 | The initial container, packaging and digest are none of the declared spellings; format and level are |
| SignatureOptionsForm.OptionsForm.constructor | components/SignatureOptions.tsx:20-24 | Mounting starts from the initial record and hands it to the parent |
| SignatureOptionsForm.OptionsForm.HandleOptionChange | components/SignatureOptions.tsx:22-28 | A change updates one field and the parent then holds the new record |
| ValidationPolicyForm.SlicePrefix | components/ValidationPolicyForm.tsx:14 | `slice(0, n)` is the first n characters, or the whole of a shorter text |
| ValidationPolicyForm.SetSpec | components/ValidationPolicyForm.tsx:22-24 | A change sets its field, leaves the other three alone, and is idempotent |
| ValidationPolicyForm.LocalTimeOfIso | components/ValidationPolicyForm.tsx:14 | Cutting an ISO timestamp after 16 characters gives a `YYYY-MM-DDTHH:MM` value, and that is a prefix of the timestamp |
| ValidationPolicyForm.DefaultsOffered | components/ValidationPolicyForm.tsx:11-16 | The default model and digest requirement are among the offered choices |
| ValidationPolicyForm.PolicyFormState.constructor | components/ValidationPolicyForm.tsx:11-20 | Mounting starts from the default policy at the given time and hands it to the parent |
| ValidationPolicyForm.PolicyFormState.HandleChange | components/ValidationPolicyForm.tsx:18-24 | A change updates one field and the parent then holds the new policy |
| ValidationPolicyForm.PolicyFormState.SetNow | components/ValidationPolicyForm.tsx:70 | "Now" replaces only the validation time, with the first 16 characters of the timestamp |
| VerificationResultsTabs.TabsListEachOnce | components/VerificationResultsTabs.tsx:12-17 | Every tab has exactly one button, and the labels are distinct |
| VerificationResultsTabs.SelectedCount | components/VerificationResultsTabs.tsx:58-74 | No button is marked selected exactly when the active tab is not listed |
| VerificationResultsTabs.ExactlyOneSelected | components/VerificationResultsTabs.tsx:58-74 | Whatever tab is active, exactly one button is marked selected |
| VerificationResultsTabs.RenderContent | components/VerificationResultsTabs.tsx:19-56 | The content belongs to the active tab and is that tab's view of its own part: a simple, detailed or tree view is rendered exactly when its part is present, and the ETSI view falls back exactly when its report is unavailable |
| VerificationResultsTabs.ContentDependsOnOwnPart | components/VerificationResultsTabs.tsx:20-51 | Each tab depends only on its own part of the result (and, for the ETSI tab, on the file name and report location) |
| VerificationResultsTabs.MissingPartThrows | components/VerificationResultsTabs.tsx:20-51 | A null simple, detailed or tree part makes its view throw (no rendering); the ETSI tab shows its fallback panel |
| VerificationResultsTabs.TabsView.constructor | components/VerificationResultsTabs.tsx:15 | The simple report is active first |
| VerificationResultsTabs.TabsView.Shown | components/VerificationResultsTabs.tsx:82 | The content shown belongs to the active tab |
| VerificationResultsTabs.TabsView.SelectTab | components/VerificationResultsTabs.tsx:71 | A click changes only the active tab, and the clicked tab's view is then shown |
| SignatureCreator.Creator.constructor | components/SignatureCreator.tsx:10-14 | The page starts with no file, no options, no outcome and not loading |
| SignatureCreator.Creator.Notices | components/SignatureCreator.tsx:79-87 | One panel for a truthy error and one for a result; a panel is a success exactly when it carries the result |
| SignatureCreator.Creator.HandleFileChange | components/SignatureCreator.tsx:16-20 | A file change stores the file and clears result and error |
| SignatureCreator.Creator.HandleOptionsChange | components/SignatureCreator.tsx:22-24 | The published options are stored and nothing else changes |
| SignatureCreator.Creator.Begin | components/SignatureCreator.tsx:27-38 | Without a file or without options only the matching error is set; otherwise loading starts with error and result cleared |
| SignatureCreator.Creator.Complete | components/SignatureCreator.tsx:40-48 | Success stores the result, failure sets the prefixed message, and loading always ends |
| SignatureCreator.Creator.HandleGenerateSignature | components/SignatureCreator.tsx:26-49 | After an attempt past the guards, exactly one of error and result is set, loading is over and one panel is shown |
| SignatureVerifier.ResultNotice | components/SignatureVerifier.tsx:83-87 | A result is shown as a success exactly when it is valid, with the result's own message |
| SignatureVerifier.Verifier.constructor | components/SignatureVerifier.tsx:10-14 | The page starts with no file, an empty signature, no outcome and not loading |
| SignatureVerifier.Verifier.Notices | components/SignatureVerifier.tsx:82-88 | One panel for a truthy error and one for a result |
| SignatureVerifier.Verifier.HandleFileChange | components/SignatureVerifier.tsx:16-20 | A file change clears result and error but keeps the pasted signature |
| SignatureVerifier.Verifier.HandleSignatureInput | components/SignatureVerifier.tsx:61 | Typing replaces only the signature text |
| SignatureVerifier.Verifier.Begin | components/SignatureVerifier.tsx:23-30 | Without a file or a signature only the error is set; otherwise loading starts with error and result cleared |
| SignatureVerifier.Verifier.Complete | components/SignatureVerifier.tsx:32-41 | A failed hash sets the error; otherwise the hexadecimal digest is sent and the answer or its failure is stored; loading always ends |
| SignatureVerifier.Verifier.HandleVerifySignature | components/SignatureVerifier.tsx:22-42 | After an attempt past the guard, exactly one of error and result is set, loading is over and one panel is shown |
| SignatureVerifier.RequestHash | components/SignatureVerifier.tsx:33-34 | The hash sent for a SHA-256 digest is 64 lower-case hexadecimal digits that read back as the digest |

## Left out

- The SHA-256 computation (`crypto.subtle.digest`) is a browser call. The digest bytes, or what the call threw, are an input of `SignatureVerifier.Verifier.Complete`.
- Base64 decoding (`atob`) is a browser call. Its output is the `decoded` input of `ResultDisplay.HandleDownload`.
- The remote signing and verification calls (`services/geminiService.ts`) are not part of this model. Their outcomes are parameters.
- Browser mechanics are not modelled: `Blob`, object URLs, anchor clicks, the clipboard, and the two-second "copied" indicator (`setTimeout`).
- The `JSON.stringify` text of a signature result is not modelled.
- JSX layout, CSS classes and icons are reduced to the rows, entries and panels they show. The `disabled` flag of the forms is not modelled.
- The wall clock is not modelled. The ISO timestamp is a parameter of `ValidationPolicyForm.PolicyFormState.constructor` and `SetNow`.
- Interleavings during an `await` are not modelled: another click or a file change while a call is pending. The handlers are modelled as a start step and a completion with nothing in between.
- `App.tsx`, `components/FileUploader.tsx`, `components/LoadingSpinner.tsx`, the icons and `vite.config.ts` are not part of this model. They are a view switch, widgets and build configuration.
- The simple, detailed and tree views are also passed `fileName` and `downloadUrl` by the tab view. They ignore these props, so only the ETSI view receives them in the model.
- PercentEncoding.EncodeRoundTrip: proved for ASCII text only, because the percent-decoder modelled reads single-byte escapes.
- EtsiValidationReport.EtsiUrlLastSegment: the decoding half is stated for ASCII file names only, for the same reason.
- ResultDisplay.CharCodesToBytes: a byte equals its character code only when every code is below 256. That is what `atob` returns, but it is a hypothesis of the postcondition, not a proved property of `atob`.
- The yellow `WARNING` badge in the status visuals can never be reached from a declared status. The code is kept, and `StatusVisuals.StatusVisuals` states that it is unreachable.
- PercentEncoding.Encode: text is a sequence of Unicode scalar values, not of UTF-16 code units, so the `URIError` that `encodeURIComponent` throws on a lone surrogate is not modelled.
- EtsiValidationReport.EtsiDownloadUrl: the link never fails to build, for the same reason; a file name holding a lone surrogate would make `encodeURIComponent` throw.
