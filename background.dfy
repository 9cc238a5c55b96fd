/** The background worker's `popupState` writer: what it stores on
    `CAPTURE_COMPLETE` (decode the image, call the API, store the verdict or
    the error) and on `CAPTURE_ERROR`. */
module Background {
  import opened Wrappers
  import opened Types
  import DataUrl

  /** A thrown value: an `Error` with its message, or anything else. */
  datatype Thrown = ErrorObject(message: string) | NonError

  /** How the race between `verifyImage(blob)` and the 60-second timer settled. */
  datatype ApiOutcome =
    | Responded(result: VerificationResponse)
    | Threw(thrown: Thrown)
    | TimedOut

  const VerifyFailedMessage: string := "Failed to verify image"
  const TimeoutMessage: string := "Request timeout: API took too long to respond"
  const CaptureFailedMessage: string := "Failed to capture screenshot"

  /** Written first on `CAPTURE_COMPLETE`. */
  const Loading: StoredState := StoredState(Some(true), None, None)

  /** `error instanceof Error ? error.message : 'Failed to verify image'`. */
  function ErrorMessage(t: Thrown): string {
    match t
    case ErrorObject(m) => m
    case NonError => VerifyFailedMessage
  }

  /** The settled record once the image has been decoded: the API's
      result, or the message of what stopped it. */
  function Settled(api: ApiOutcome): StoredState {
    match api
    case Responded(r) => StoredState(Some(false), Some(r), None)
    case TimedOut => StoredState(Some(false), None, Some(TimeoutMessage))
    case Threw(t) => StoredState(Some(false), None, Some(ErrorMessage(t)))
  }

  /** The record `CAPTURE_COMPLETE` stores last. A failing `atob` throws an
      `Error` whose message is kept; the API outcome matters only once the
      image has been decoded. */
  function Completion(imageData: string, atob: string -> Result<string, string>, api: ApiOutcome): (s: StoredState)
    ensures s.isLoading == Some(false)
    ensures Exclusive(s)
    ensures s.result.Some? <==> atob(DataUrl.AtobArgument(imageData)).Success? && api.Responded?
    ensures s.result.None? ==> s.error.Some?
    ensures atob(DataUrl.AtobArgument(imageData)).Success? && api.Responded? ==> s.result == Some(api.result)
    ensures atob(DataUrl.AtobArgument(imageData)).Failure? ==> s.error == Some(atob(DataUrl.AtobArgument(imageData)).error)
    ensures atob(DataUrl.AtobArgument(imageData)).Success? && api.TimedOut? ==> s.error == Some(TimeoutMessage)
    ensures atob(DataUrl.AtobArgument(imageData)).Success? && api.Threw? ==> s.error == Some(ErrorMessage(api.thrown))
  {
    var decoded := atob(DataUrl.AtobArgument(imageData));
    if decoded.Failure? then StoredState(Some(false), None, Some(decoded.error)) else Settled(api)
  }

  /** The record `CAPTURE_ERROR` stores: the message's error, or the
      default when it is missing or empty. */
  function CaptureFailure(error: Option<string>): (s: StoredState)
    ensures s.isLoading == Some(false) && s.result == None
    ensures s.error.Some? && s.error.value != ""
    ensures error.Some? && error.value != "" ==> s.error == error
    ensures error.None? || error.value == "" ==> s.error == Some(CaptureFailedMessage)
  {
    StoredState(Some(false), None, Some(if error.Some? && error.value != "" then error.value else CaptureFailedMessage))
  }

  /** `CAPTURE_COMPLETE` with `imageData`: nothing when it is empty;
      otherwise the loading record, then the settled record. */
  method OnCaptureComplete(store: LocalStorage, imageData: string, atob: string -> Result<string, string>, api: ApiOutcome)
    requires store.Valid()
    modifies store
    ensures store.Valid()
    ensures imageData == "" ==> store.popupState == old(store.popupState) && store.writes == old(store.writes)
    ensures imageData != "" ==> store.writes == old(store.writes) + [Loading, Completion(imageData, atob, api)]
    ensures imageData != "" ==> store.popupState == Some(Completion(imageData, atob, api))
  {
    if imageData == "" {
      return;
    }
    store.Set(Loading);
    var blob := DataUrl.DataUrlToBlob(imageData, atob);
    // a decoded `blob` goes to the API, whose outcome is `api`
    var settled := if blob.Failure? then StoredState(Some(false), None, Some(blob.error)) else Settled(api);
    store.Set(settled);
  }

  /** `CAPTURE_ERROR` with the message's `error`. */
  method OnCaptureError(store: LocalStorage, error: Option<string>)
    requires store.Valid()
    modifies store
    ensures store.Valid()
    ensures store.writes == old(store.writes) + [CaptureFailure(error)]
    ensures store.popupState == Some(CaptureFailure(error))
  {
    store.Set(CaptureFailure(error));
  }
}
