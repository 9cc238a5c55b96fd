/** The popup: the source count shown with a verdict, the rotating loading
    message, and the view state it adopts from storage, resets, and sets
    when a capture starts. */
module Popup {
  import opened Wrappers
  import opened Types
  import opened Digits

  const LoadingMessages: seq<string> := [
    "Our AI is fact-checking this post...",
    "Cross-checking facts across trusted sources...",
    "Analyzing claims with real-time data...",
    "Verifying truth takes a second \U{23F3}"
  ]

  const StartFailedMessage: string := "Failed to start capture. Please refresh the page and try again."

  // ---------------------------------------------------------------------------
  // Source count

  /** The length of a `\[\d+\]` match at the start of `s`, or 0 when none starts there. */
  function CitationAt(s: string): nat {
    if s != [] && s[0] == '[' then
      var k := DigitRun(s[1..]);
      if 0 < k && 1 + k < |s| && s[1 + k] == ']' then k + 2 else 0
    else 0
  }

  /** `response.match(/\[\d+\]/g)`: the matched strings, left to right. */
  function Citations(s: string): (matches: seq<string>)
    ensures forall k :: 0 <= k < |matches| ==> IsCitation(matches[k])
    decreases |s|
  {
    if s == [] then []
    else
      var m := CitationAt(s);
      if 0 < m <= |s| then
        CitationAtIsCitation(s);
        [s[..m]] + Citations(s[m..])
      else Citations(s[1..])
  }

  /** A bracketed, non-empty run of decimal digits. */
  predicate IsCitation(t: string) {
    3 <= |t| && t[0] == '[' && t[|t| - 1] == ']' && AllDigits(t[1..|t| - 1])
  }

  /** Every distinct citation token that occurs somewhere in `s`. */
  function CitationTokens(s: string): set<string> {
    set i, j | 0 <= i < j <= |s| && IsCitation(s[i..j]) :: s[i..j]
  }

  /** `matches ? new Set(matches).size : 0`: the number of distinct matches;
      repeated citations count once, so it never exceeds the match count,
      and it is 0 exactly when nothing matched. */
  function SourceCount(response: string): (count: nat)
    ensures count <= |Citations(response)|
    ensures count == 0 <==> Citations(response) == []
  {
    var matches := Citations(response);
    DistinctBound(matches);
    var distinct := set t | t in matches;
    if matches == [] then 0
    else
      assert matches[0] in distinct;
      |distinct|
  }

  lemma {:induction false} DistinctBound(ts: seq<string>)
    ensures |set t | t in ts| <= |ts|
    decreases |ts|
  {
    if ts != [] {
      DistinctBound(ts[1..]);
      assert (set t | t in ts) == (set t | t in ts[1..]) + {ts[0]};
    }
  }

  /** A citation token at the start of the text is exactly what the scan matches there. */
  lemma MatchAtStart(s: string, j: nat)
    requires 0 < j <= |s| && IsCitation(s[..j])
    ensures CitationAt(s) == j
  {
    assert s[1..] == s[1..j - 1] + s[j - 1..];
    assert s[1..j - 1] == s[..j][1..j - 1];
    DigitRunOfDigits(s[1..j - 1], s[j - 1..]);
  }

  /** A citation token of a suffix is a citation token of the whole text. */
  lemma TokensOfSuffix(s: string, k: nat, t: string)
    requires k <= |s| && t in CitationTokens(s[k..])
    ensures t in CitationTokens(s)
  {
    var i, j :| 0 <= i < j <= |s[k..]| && IsCitation(s[k..][i..j]) && s[k..][i..j] == t;
    assert s[k + i..k + j] == t;
  }

  /** What the scan matches at the start is a bracketed digit run. */
  lemma CitationAtIsCitation(s: string)
    requires 0 < CitationAt(s) <= |s|
    ensures IsCitation(s[..CitationAt(s)])
  {
    var m := CitationAt(s);
    assert s[..m][1..m - 1] == s[1..][..m - 2];
  }

  /** A match the scan takes at the start is a citation token of the text. */
  lemma MatchIsToken(s: string)
    requires 0 < CitationAt(s) <= |s|
    ensures s[..CitationAt(s)] in CitationTokens(s)
  {
    var m := CitationAt(s);
    CitationAtIsCitation(s);
    assert s[0..m] == s[..m];
  }

  /** Every match the regular expression returns is a citation token of the text. */
  lemma {:induction false} CitationsSound(s: string)
    ensures forall t :: t in Citations(s) ==> t in CitationTokens(s)
    decreases |s|
  {
    if s != [] {
      var m := CitationAt(s);
      var k := if 0 < m <= |s| then m else 1;
      CitationsSound(s[k..]);
      forall t | t in Citations(s[k..])
        ensures t in CitationTokens(s)
      {
        TokensOfSuffix(s, k, t);
      }
      if 0 < m <= |s| {
        MatchIsToken(s);
        assert Citations(s) == [s[..m]] + Citations(s[k..]);
      } else {
        assert Citations(s) == Citations(s[k..]);
      }
    }
  }

  /** Every citation token that occurs in the text is among the matches. */
  lemma {:induction false} CitationsComplete(s: string, i: nat, j: nat)
    requires i < j <= |s| && IsCitation(s[i..j])
    ensures s[i..j] in Citations(s)
    decreases |s|
  {
    var m := CitationAt(s);
    if i == 0 {
      MatchAtStart(s, j);
      assert s[..j] == s[0..j];
    } else if 0 < m <= |s| {
      // inside a match there is no '[' after the first character
      assert s[i] == '[';
      if i < m {
        assert false;
      }
      assert s[m..][i - m..j - m] == s[i..j];
      CitationsComplete(s[m..], i - m, j - m);
    } else {
      assert s[1..][i - 1..j - 1] == s[i..j];
      CitationsComplete(s[1..], i - 1, j - 1);
    }
  }

  /** The source count is the number of distinct citation tokens in the text. */
  lemma SourceCountIsDistinctTokens(response: string)
    ensures SourceCount(response) == |CitationTokens(response)|
  {
    var matches := Citations(response);
    CitationsSound(response);
    forall t | t in CitationTokens(response)
      ensures t in matches
    {
      var i, j :| 0 <= i < j <= |response| && IsCitation(response[i..j]) && response[i..j] == t;
      CitationsComplete(response, i, j);
    }
    assert (set t | t in matches) == CitationTokens(response);
  }

  // ---------------------------------------------------------------------------
  // Loading message rotation

  /** `(prev + 1) % loadingMessages.length`. */
  function NextMessageIndex(prev: nat): (next: nat)
    ensures next < |LoadingMessages|
    ensures prev < |LoadingMessages| - 1 ==> next == prev + 1
    ensures prev == |LoadingMessages| - 1 ==> next == 0
  {
    (prev + 1) % |LoadingMessages|
  }

  function AfterTicks(index: nat, ticks: nat): nat {
    if ticks == 0 then index else NextMessageIndex(AfterTicks(index, ticks - 1))
  }

  lemma ModSucc(p: nat)
    ensures (p % |LoadingMessages| + 1) % |LoadingMessages| == (p + 1) % |LoadingMessages|
  {
    assert |LoadingMessages| == 4;
    var q, r := p / 4, p % 4;
    assert p == 4 * q + r && 0 <= r < 4;
    if r == 3 {
      assert p + 1 == 4 * (q + 1);
    } else {
      assert p + 1 == 4 * q + (r + 1);
    }
  }

  /** After `ticks` interval ticks from a valid index the index has moved
      `ticks` places round the four messages; four ticks bring it back. */
  lemma {:induction false} RotationAdvances(index: nat, ticks: nat)
    requires index < |LoadingMessages|
    ensures AfterTicks(index, ticks) == (index + ticks) % |LoadingMessages|
  {
    if ticks > 0 {
      RotationAdvances(index, ticks - 1);
      ModSucc(index + ticks - 1);
    }
  }

  // ---------------------------------------------------------------------------
  // Adopting the stored result

  /** `x ? JSON.stringify(x) : null`. */
  function Serialized(r: Option<VerificationResponse>, stringify: VerificationResponse -> string): Option<string> {
    match r
    case Some(v) => Some(stringify(v))
    case None => None
  }

  /** The `setResult` updater: the stored result replaces the current one
      only when their serialisations differ. Either way the view's result is
      then present exactly when the stored one is, with the same
      serialisation. */
  function Adopt(prev: Option<VerificationResponse>, stored: Option<VerificationResponse>, stringify: VerificationResponse -> string): (r: Option<VerificationResponse>)
    ensures r.Some? <==> stored.Some?
    ensures Serialized(r, stringify) == Serialized(stored, stringify)
    ensures Serialized(prev, stringify) == Serialized(stored, stringify) ==> r == prev
    ensures Serialized(prev, stringify) != Serialized(stored, stringify) ==> r == stored
  {
    if Serialized(prev, stringify) != Serialized(stored, stringify) then stored else prev
  }

  /** With a one-to-one serialisation, adoption always yields the stored result. */
  lemma AdoptInjective(prev: Option<VerificationResponse>, stored: Option<VerificationResponse>, stringify: VerificationResponse -> string)
    requires forall a, b :: stringify(a) == stringify(b) ==> a == b
    ensures Adopt(prev, stored, stringify) == stored
  {
    if prev.Some? && stored.Some? && stringify(prev.value) == stringify(stored.value) {
      assert prev.value == stored.value;
    }
  }

  /** What `chrome.tabs.query` / `sendMessage` did in `startCapture`. */
  datatype TabOutcome = MessageSent | NoTabId | Threw

  /** The popup's React state. */
  class PopupView {
    var isLoading: bool
    var result: Option<VerificationResponse>
    var error: Option<string>
    var isCapturing: bool
    var loadingMessageIndex: nat

    ghost predicate Valid()
      reads this
    {
      loadingMessageIndex < |LoadingMessages|
    }

    constructor ()
      ensures Valid() && !isLoading && result == None && error == None && !isCapturing && loadingMessageIndex == 0
    {
      isLoading, result, error, isCapturing, loadingMessageIndex := false, None, None, false, 0;
    }

    /** The first panel is shown when nothing is loading, no result is
      held and no capture is starting. */
    predicate ShowsInitialPanel()
      reads this
    {
      !isLoading && result.None? && !isCapturing
    }

    /** One interval tick while loading. */
    method IncrementMessageIndex()
      requires Valid()
      modifies this`loadingMessageIndex
      ensures Valid()
      ensures loadingMessageIndex == NextMessageIndex(old(loadingMessageIndex))
    {
      loadingMessageIndex := (loadingMessageIndex + 1) % |LoadingMessages|;
    }

    /** The effect that runs when `isLoading` changes: when it is false the
      index goes back to 0 (when it is true an interval starts ticking). */
    method OnLoadingChanged()
      requires Valid()
      modifies this`loadingMessageIndex
      ensures Valid()
      ensures !isLoading ==> loadingMessageIndex == 0
      ensures isLoading ==> loadingMessageIndex == old(loadingMessageIndex)
    {
      if !isLoading {
        loadingMessageIndex := 0;
      }
    }

    /** `updateStateFromStorage` with the stored `popupState` (`None` when
      absent). Without one the view goes back to its initial values; with one
      it takes `isLoading || false`, `error || null` and the adopted result.
      A record with no result and error at once gives a view without both. */
    method UpdateStateFromStorage(stored: Option<StoredState>, stringify: VerificationResponse -> string)
      modifies this`isLoading, this`result, this`error
      ensures stored.None? ==> !isLoading && result == None && error == None
      ensures stored.Some? ==> isLoading == stored.value.isLoading.GetOr(false)
      ensures stored.Some? ==> error == if stored.value.error == Some("") then None else stored.value.error
      ensures stored.Some? ==> result == Adopt(old(result), stored.value.result, stringify)
      ensures stored.Some? && Exclusive(stored.value) ==> !(result.Some? && error.Some?)
    ensures stored.None? ==> (ShowsInitialPanel() <==> !isCapturing)
    {
      if stored.Some? {
        var state := stored.value;
        isLoading := state.isLoading.GetOr(false);
        if Serialized(result, stringify) != Serialized(state.result, stringify) {
          result := state.result;
        }
        error := if state.error == Some("") then None else state.error;
      } else {
        isLoading := false;
        result := None;
        error := None;
      }
    }

    /** `startCapture`: clears the error and result and marks the capture
      as starting; if querying or messaging the tab throws, the capture flag
      drops and the failure message is shown. Returns whether the popup
      closes itself (the message reached a tab). */
    method StartCapture(outcome: TabOutcome) returns (closes: bool)
      modifies this`error, this`result, this`isCapturing
      ensures result == None
      ensures closes <==> outcome == MessageSent
      ensures outcome == Threw ==> !isCapturing && error == Some(StartFailedMessage)
      ensures outcome != Threw ==> isCapturing && error == None
    ensures outcome != Threw ==> !ShowsInitialPanel()
    {
      error := None;
      result := None;
      isCapturing := true;
      closes := false;
      match outcome
      case MessageSent => closes := true;
      case NoTabId =>
      case Threw =>
        isCapturing := false;
        error := Some(StartFailedMessage);
    }

    /** `reset`: clears result and error, both flags, and the stored
      state; the initial panel shows again. */
    method Reset(store: LocalStorage)
      requires store.Valid()
      modifies this`result, this`error, this`isCapturing, this`isLoading, store
      ensures result == None && error == None && !isCapturing && !isLoading
      ensures ShowsInitialPanel()
      ensures store.Valid() && store.popupState == None && store.writes == old(store.writes)
    {
      result := None;
      error := None;
      isCapturing := false;
      isLoading := false;
      store.Remove();
    }
  }
}
