/** The records the extension passes around, and the browser storage that
    holds the popup's state. */
module Types {
  import opened Wrappers

  /** A byte, as stored in a `Uint8Array`. */
  type Byte = b: int | 0 <= b < 256

  /** The verdict the backend returns and the popup shows. */
  datatype VerificationResponse = VerificationResponse(question: string, claim: string, validity: bool, response: string)

  /** The `popupState` record kept in extension storage; `None` stands for a
      field that is absent, `null` or `undefined`. */
  datatype StoredState = StoredState(isLoading: Option<bool>, result: Option<VerificationResponse>, error: Option<string>)

  /** A record never reports a result and an error at once. */
  predicate Exclusive(s: StoredState) {
    !(s.result.Some? && s.error.Some?)
  }

  /** `chrome.storage.local`, reduced to its `popupState` key; `writes` is
      the history of every record written to it. */
  class LocalStorage {
    var popupState: Option<StoredState>
    ghost var writes: seq<StoredState>

    /** Every record ever written, and the one stored now, is exclusive. */
    ghost predicate Valid()
      reads this
    {
      (forall k :: 0 <= k < |writes| ==> Exclusive(writes[k])) &&
      (popupState.Some? ==> Exclusive(popupState.value))
    }

    constructor ()
      ensures Valid() && popupState == None && writes == []
    {
      popupState := None;
      writes := [];
    }

    /** `chrome.storage.local.set({ popupState: state })`. */
    method Set(state: StoredState)
      modifies this
      ensures popupState == Some(state) && writes == old(writes) + [state]
    {
      popupState := Some(state);
      writes := writes + [state];
    }

    /** `chrome.storage.local.remove(['popupState'])`. */
    method Remove()
      modifies this
      ensures popupState == None && writes == old(writes)
    {
      popupState := None;
    }
  }
}
