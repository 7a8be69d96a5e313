/** The signing page: the chosen file, the options published by the options
    form, and the state of one generation attempt (loading flag, error text,
    generated result). The remote signing call is not modelled: its outcome,
    a result or a thrown value, is an input. */
module SignatureCreator {
  import opened JsRuntime
  import opened Types
  import opened ResultDisplay
  import SignatureOptionsForm

  const NoFileError := "Please select a file first."
  const NoOptionsError := "Signature options are not set."
  const FailurePrefix := "Signature generation failed: "
  const SuccessMessage := "Signature generated successfully!"

  class Creator {
    var file: Option<BrowserFile>
    var isLoading: bool
    var error: Option<string>
    var result: Option<SignatureResult>
    var signatureOptions: Option<SignatureOptionsForm.FormOptions>

    constructor()
      ensures file.None? && !isLoading && error.None? && result.None? && signatureOptions.None?
    {
      file, isLoading, error, result, signatureOptions := None, false, None, None, None;
    }

    /** The generate button is disabled without a file or while loading. */
    predicate GenerateDisabled()
      reads this
    {
      file.None? || isLoading
    }

    /** The result panels under the button: the error, then the result. */
    function Notices(): (ns: seq<Notice>)
      reads this
      ensures |ns| == (if Truthy(error) then 1 else 0) + (if result.Some? then 1 else 0)
      ensures forall n :: n in ns ==> (n.displayType == SuccessType <==> n.signatureResult.Some?)
    {
      (if Truthy(error) then [Notice(ErrorType, error, None, None)] else [])
      + (if result.Some? then
           [Notice(SuccessType, Some(SuccessMessage), result,
                   if file.Some? then Some(file.value.name) else None)]
         else [])
    }

    /** `handleFileChange`: a new file (or none) clears the previous outcome. */
    method HandleFileChange(selected: Option<BrowserFile>)
      modifies this
      ensures file == selected && result.None? && error.None?
      ensures isLoading == old(isLoading) && signatureOptions == old(signatureOptions)
    {
      file := selected;
      result := None;
      error := None;
    }

    /** `handleOptionsChange`: the options form published a new record. */
    method HandleOptionsChange(options: SignatureOptionsForm.FormOptions)
      modifies this
      ensures signatureOptions == Some(options)
      ensures file == old(file) && isLoading == old(isLoading) && error == old(error) && result == old(result)
    {
      signatureOptions := Some(options);
    }

    /** The synchronous part of `handleGenerateSignature`: the two guards,
        each of which only sets the error, then the start of an attempt. */
    method Begin() returns (started: bool)
      modifies this
      ensures started <==> old(file).Some? && old(signatureOptions).Some?
      ensures old(file).None? ==> error == Some(NoFileError)
      ensures old(file).Some? && old(signatureOptions).None? ==> error == Some(NoOptionsError)
      ensures !started ==> isLoading == old(isLoading) && result == old(result)
      ensures started ==> isLoading && error.None? && result.None?
      ensures started ==> GenerateDisabled()
      ensures file == old(file) && signatureOptions == old(signatureOptions)
    {
      if file.None? {
        error := Some(NoFileError);
        return false;
      }
      if signatureOptions.None? {
        error := Some(NoOptionsError);
        return false;
      }
      isLoading := true;
      error := None;
      result := None;
      return true;
    }

    /** The part after the awaited call: store the result or the error
        message, and in every case stop loading. */
    method Complete(outcome: Outcome<SignatureResult>)
      modifies this
      ensures !isLoading
      ensures outcome.Resolved? ==> result == Some(outcome.value) && error == old(error)
      ensures outcome.Rejected? ==>
        error == Some(FailurePrefix + ErrorMessage(outcome.error)) && result == old(result)
      ensures file == old(file) && signatureOptions == old(signatureOptions)
    {
      match outcome {
        case Resolved(r) => result := Some(r);
        case Rejected(e) => error := Some(FailurePrefix + ErrorMessage(e));
      }
      isLoading := false;
    }

    /** `handleGenerateSignature` with no other event during the await:
        after an attempt that got past the guards exactly one of error and
        result is set, and exactly one panel is shown. */
    method HandleGenerateSignature(outcome: Outcome<SignatureResult>)
      modifies this
      ensures old(file).None? ==> error == Some(NoFileError) && result == old(result)
      ensures old(file).Some? && old(signatureOptions).None? ==>
        error == Some(NoOptionsError) && result == old(result)
      ensures old(file).Some? && old(signatureOptions).Some? ==>
        && !isLoading
        && (error.Some? != result.Some?)
        && |Notices()| == 1
        && (outcome.Resolved? ==> result == Some(outcome.value))
        && (outcome.Rejected? ==> error == Some(FailurePrefix + ErrorMessage(outcome.error)))
      ensures file == old(file) && signatureOptions == old(signatureOptions)
    {
      var started := Begin();
      if started {
        Complete(outcome);
      }
    }
  }
}
