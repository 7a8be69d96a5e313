/** The verification page: the chosen file, the pasted signature block, and
    the state of one verification attempt. The attempt hashes the file
    (the SHA-256 digest comes from the browser and is an input), sends the
    hexadecimal digest and the signature block to the backend (whose answer
    is an input), and shows the outcome. */
module SignatureVerifier {
  import opened JsRuntime
  import opened Types
  import opened ResultDisplay
  import FileUtils

  const MissingInputError := "Please select a file and provide the signature."
  const FailurePrefix := "Signature verification failed: "

  /** A finished verification is shown as a success exactly when it is
      valid, with the result's own message and no signature block. */
  function ResultNotice(r: VerificationResult): (n: Notice)
    ensures n.displayType == SuccessType <==> r.isValid
    ensures n.message == r.message
    ensures n.signatureResult.None? && n.originalFileName.None?
  {
    Notice(if r.isValid then SuccessType else ErrorType, r.message, None, None)
  }

  /** One request to the backend: the document hash and the signature block. */
  datatype Request = Request(documentHash: string, signatureBlock: string)

  class Verifier {
    var file: Option<BrowserFile>
    var signature: string
    var isLoading: bool
    var error: Option<string>
    var result: Option<VerificationResult>
    /** The requests sent to the backend so far, oldest first. */
    var sent: seq<Request>

    constructor()
      ensures file.None? && signature == "" && !isLoading && error.None? && result.None? && sent == []
    {
      file, signature, isLoading, error, result, sent := None, "", false, None, None, [];
    }

    /** The verify button is disabled without a file, with an empty
        signature, or while loading. */
    predicate VerifyDisabled()
      reads this
    {
      file.None? || signature == "" || isLoading
    }

    /** The result panels under the button: the error, then the result. */
    function Notices(): (ns: seq<Notice>)
      reads this
      ensures |ns| == (if Truthy(error) then 1 else 0) + (if result.Some? then 1 else 0)
    {
      (if Truthy(error) then [Notice(ErrorType, error, None, None)] else [])
      + (if result.Some? then [ResultNotice(result.value)] else [])
    }

    /** `handleFileChange`: the pasted signature is kept. */
    method HandleFileChange(selected: Option<BrowserFile>)
      modifies this
      ensures file == selected && result.None? && error.None?
      ensures signature == old(signature) && isLoading == old(isLoading) && sent == old(sent)
    {
      file := selected;
      result := None;
      error := None;
    }

    /** Typing in the signature box. */
    method HandleSignatureInput(text: string)
      modifies this
      ensures signature == text
      ensures file == old(file) && isLoading == old(isLoading) && error == old(error)
      ensures result == old(result) && sent == old(sent)
    {
      signature := text;
    }

    /** The synchronous part of `handleVerifySignature`: the guard, which
        only sets the error, then the start of an attempt. */
    method Begin() returns (started: bool)
      modifies this
      ensures started <==> old(file).Some? && old(signature) != ""
      ensures !started ==> error == Some(MissingInputError) && isLoading == old(isLoading) && result == old(result)
      ensures started ==> isLoading && error.None? && result.None? && VerifyDisabled()
      ensures file == old(file) && signature == old(signature) && sent == old(sent)
    {
      if file.None? || signature == "" {
        error := Some(MissingInputError);
        return false;
      }
      isLoading := true;
      error := None;
      result := None;
      return true;
    }

    /** The part after the awaits: the digest (or what hashing threw), then,
        if there was a digest, the backend's answer to the request built
        from its hexadecimal form. Loading stops in every case. */
    method Complete(digest: Outcome<seq<FileUtils.Byte>>, answer: Outcome<VerificationResult>)
      modifies this
      ensures !isLoading
      ensures digest.Rejected? ==>
        error == Some(FailurePrefix + ErrorMessage(digest.error)) && result == old(result) && sent == old(sent)
      ensures digest.Resolved? ==>
        sent == old(sent) + [Request(FileUtils.DigestHex(digest.value), signature)]
      ensures digest.Resolved? && answer.Resolved? ==> result == Some(answer.value) && error == old(error)
      ensures digest.Resolved? && answer.Rejected? ==>
        error == Some(FailurePrefix + ErrorMessage(answer.error)) && result == old(result)
      ensures file == old(file) && signature == old(signature)
    {
      match digest {
        case Rejected(e) =>
          error := Some(FailurePrefix + ErrorMessage(e));
        case Resolved(bytes) =>
          var documentHash := FileUtils.DigestHex(bytes);
          sent := sent + [Request(documentHash, signature)];
          match answer {
            case Resolved(r) => result := Some(r);
            case Rejected(e) => error := Some(FailurePrefix + ErrorMessage(e));
          }
      }
      isLoading := false;
    }

    /** `handleVerifySignature` with no other event during the awaits: after
        an attempt that got past the guard exactly one of error and result is
        set, and exactly one panel is shown. */
    method HandleVerifySignature(digest: Outcome<seq<FileUtils.Byte>>, answer: Outcome<VerificationResult>)
      modifies this
      ensures old(file).None? || old(signature) == "" ==>
        error == Some(MissingInputError) && result == old(result) && sent == old(sent)
      ensures old(file).Some? && old(signature) != "" ==>
        && !isLoading
        && (error.Some? != result.Some?)
        && |Notices()| == 1
        && (digest.Resolved? ==> sent == old(sent) + [Request(FileUtils.DigestHex(digest.value), old(signature))])
      ensures file == old(file) && signature == old(signature)
    {
      var started := Begin();
      if started {
        Complete(digest, answer);
      }
    }
  }

  /** A request carries the SHA-256 digest as 64 lower-case hexadecimal
      digits, two per digest byte, high nibble first. */
  lemma RequestHash(bytes: seq<FileUtils.Byte>)
    requires |bytes| == 32
    ensures |FileUtils.DigestHex(bytes)| == 64
    ensures forall k :: 0 <= k < 64 ==> FileUtils.IsLowerHexDigit(FileUtils.DigestHex(bytes)[k])
    ensures FileUtils.ParseDigestHex(FileUtils.DigestHex(bytes)) == Some(bytes)
  {
    FileUtils.DigestHexLayout(bytes);
    FileUtils.DigestHexRoundTrip(bytes);
  }
}
