/** The download of a signed document: the decoded document text is copied
    into bytes, the MIME type and extension are guessed from the server's
    file name, and the name the file is saved under is chosen. The base64
    decoding itself (`atob`) is not modelled: its output is an input here. */
module ResultDisplay {
  import opened JsRuntime
  import opened Types

  type Byte = x: int | 0 <= x < 256

  /** `new Uint8Array(numbers)`: each number is reduced modulo 2^8. */
  function ToUint8(numbers: seq<int>): seq<Byte> {
    seq(|numbers|, i requires 0 <= i < |numbers| => numbers[i] % 256)
  }

  /** The byte copy: `byteNumbers[i] = byteCharacters.charCodeAt(i)` for each
      i, then the conversion to a byte array. Text produced by `atob` only
      holds code points below 256, and for such text every byte is exactly
      the character's code. */
  method CharCodesToBytes(byteCharacters: string) returns (byteArray: seq<Byte>)
    ensures |byteArray| == |byteCharacters|
    ensures forall i :: 0 <= i < |byteCharacters| ==> byteArray[i] == (byteCharacters[i] as int) % 256
    ensures (forall i :: 0 <= i < |byteCharacters| ==> byteCharacters[i] as int < 256) ==>
      forall i :: 0 <= i < |byteCharacters| ==> byteArray[i] == byteCharacters[i] as int
  {
    var byteNumbers := new int[|byteCharacters|];
    for i := 0 to |byteCharacters|
      invariant forall k :: 0 <= k < i ==> byteNumbers[k] == byteCharacters[k] as int
    {
      byteNumbers[i] := byteCharacters[i] as int;
    }
    byteArray := ToUint8(byteNumbers[..]);
  }

  /** The props of one result panel: `type`, `message` (absent when the
      caller passes `undefined`), and the optional signature result and
      original file name that enable the signature block. */
  datatype DisplayType = SuccessType | ErrorType
  datatype Notice = Notice(
    displayType: DisplayType,
    message: Option<string>,
    signatureResult: Option<SignatureResult>,
    originalFileName: Option<string>)

  datatype FileType = FileType(mimeType: string, extension: string)

  const DefaultType := FileType("application/octet-stream", ".bin")

  /** The if/else chain on the suffix of the server's file name: the first
      matching case-sensitive suffix decides, `.p7m` counts as `.p7s`. */
  function InferFileType(fileName: string): FileType {
    if EndsWith(fileName, ".pdf") then FileType("application/pdf", ".pdf")
    else if EndsWith(fileName, ".json") then FileType("application/json", ".json")
    else if EndsWith(fileName, ".p7s") || EndsWith(fileName, ".p7m") then FileType("application/pkcs7-signature", ".p7s")
    else if EndsWith(fileName, ".xml") then FileType("application/xml", ".xml")
    else DefaultType
  }

  /** No name ends with two of the suffixes, so the order of the cases never
      matters: each suffix alone determines the type, and a name with none of
      them (the empty name included) gets the default. */
  lemma InferFileTypeBySuffix(fileName: string)
    ensures EndsWith(fileName, ".pdf") ==> InferFileType(fileName) == FileType("application/pdf", ".pdf")
    ensures EndsWith(fileName, ".json") ==> InferFileType(fileName) == FileType("application/json", ".json")
    ensures EndsWith(fileName, ".p7s") || EndsWith(fileName, ".p7m") ==>
      InferFileType(fileName) == FileType("application/pkcs7-signature", ".p7s")
    ensures EndsWith(fileName, ".xml") ==> InferFileType(fileName) == FileType("application/xml", ".xml")
    ensures InferFileType(fileName) == DefaultType <==>
      !EndsWith(fileName, ".pdf") && !EndsWith(fileName, ".json") && !EndsWith(fileName, ".p7s") &&
      !EndsWith(fileName, ".p7m") && !EndsWith(fileName, ".xml")
  {
    var n := |fileName|;
    if EndsWith(fileName, ".json") {
      assert fileName[n - 1] == 'n';
    }
    if EndsWith(fileName, ".p7s") || EndsWith(fileName, ".p7m") {
      assert fileName[n - 2] == '7';
    }
    if EndsWith(fileName, ".xml") {
      assert fileName[n - 1] == 'l';
    }
  }

  /** `baseName`: the original name up to its last `.` when it has one,
      else the original name, else "document". */
  function BaseName(originalFileName: Option<string>): (base: string)
    ensures !Truthy(originalFileName) ==> base == "document"
    ensures Truthy(originalFileName) && '.' !in originalFileName.value ==> base == originalFileName.value
    ensures Truthy(originalFileName) && '.' in originalFileName.value ==>
      var o := originalFileName.value;
      |base| < |o| && o[..|base|] == base && o[|base|] == '.' && '.' !in o[|base| + 1..]
  {
    if Truthy(originalFileName) && '.' in originalFileName.value then
      var o := originalFileName.value;
      var cut := LastIndexOf(o, '.');
      assert cut >= 0 by {
        var k :| 0 <= k < |o| && o[k] == '.';
      }
      o[..cut]
    else if Truthy(originalFileName) then originalFileName.value
    else "document"
  }

  /** `signatureResult.fileName || baseName + extension`. */
  function DownloadName(result: SignatureResult, originalFileName: Option<string>): string {
    if result.fileName != "" then result.fileName
    else BaseName(originalFileName) + InferFileType(result.fileName).extension
  }

  /** A server name is used as it is; without one the guessed extension is
      always the default `.bin`, since the empty name has no suffix. */
  lemma DownloadNameSpec(result: SignatureResult, originalFileName: Option<string>)
    ensures result.fileName != "" ==> DownloadName(result, originalFileName) == result.fileName
    ensures result.fileName == "" ==> DownloadName(result, originalFileName) == BaseName(originalFileName) + ".bin"
  {
  }

  datatype Download = Download(bytes: seq<Byte>, mimeType: string, fileName: string)

  /** `handleDownload`: nothing happens without a result or with an empty
      document; otherwise the bytes, the type and the name of the file to
      save. `decoded` is what `atob` returns for the document. */
  method HandleDownload(signatureResult: Option<SignatureResult>, originalFileName: Option<string>, decoded: string)
    returns (d: Option<Download>)
    ensures d.None? <==> signatureResult.None? || signatureResult.value.documentBase64 == ""
    ensures d.Some? ==>
      && |d.value.bytes| == |decoded|
      && (forall i :: 0 <= i < |decoded| ==> d.value.bytes[i] == (decoded[i] as int) % 256)
      && d.value.mimeType == InferFileType(signatureResult.value.fileName).mimeType
      && d.value.fileName == DownloadName(signatureResult.value, originalFileName)
  {
    if signatureResult.None? || signatureResult.value.documentBase64 == "" {
      return None;
    }
    var result := signatureResult.value;
    var byteArray := CharCodesToBytes(decoded);
    var mimeType := "application/octet-stream";
    var extension := ".bin";
    if EndsWith(result.fileName, ".pdf") {
      mimeType, extension := "application/pdf", ".pdf";
    } else if EndsWith(result.fileName, ".json") {
      mimeType, extension := "application/json", ".json";
    } else if EndsWith(result.fileName, ".p7s") || EndsWith(result.fileName, ".p7m") {
      mimeType, extension := "application/pkcs7-signature", ".p7s";
    } else if EndsWith(result.fileName, ".xml") {
      mimeType, extension := "application/xml", ".xml";
    }
    var baseName := BaseName(originalFileName);
    var fileName := if result.fileName != "" then result.fileName else baseName + extension;
    d := Some(Download(byteArray, mimeType, fileName));
  }
}
