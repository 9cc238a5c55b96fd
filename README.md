# ReaLM fact-checker — a Dafny model

ReaLM lets a user drag a rectangle over a web page, screenshots it, and sends
the image to a backend. The backend has a generative model extract the claim
and a search question, runs a web search for evidence, and asks the model for
a verdict. This project models the string, byte and state-transition logic of
that flow and proves properties about it:

- **`/verify-new` handler** (`verify_handler.dfy`, `model_text.dfy`,
  `evidence.dfy`, `prompts.dfy`). The handler is a function over its
  collaborators. The model service, the search service, `JSON.parse` and
  `encodeBase64` are parameters that return a value or throw. The handler
  returns the HTTP reply and the list of outbound calls it made, so we can
  state which calls happen and in which order. The clean-up of model replies
  (delete every "```json\n?", then every "```\n?", then trim) is modelled as
  leftmost, non-overlapping global replacement. The evidence block is
  modelled as 1-indexed citation entries joined by blank lines.
- **`dataURLtoBlob`** (`data_url.dfy`). The background worker and the API
  service contain the same text for this function, and the model has one
  copy. It covers the MIME type taken by the lazy `/:(.*?);/` match with its
  `image/jpeg` fallback, the payload between the first and second comma, and
  the count-down `while (n--)` loop that fills a byte array in place. The
  `Blob` constructor normalises its `type` option, as the File API defines:
  the option is lower-cased in ASCII, and becomes empty if it holds a
  character outside U+0020 to U+007E.
- **Background `popupState` writer** (`background.dfy`, `types.dfy`). This
  covers the records stored on `CAPTURE_COMPLETE` and `CAPTURE_ERROR`.
  Extension storage is a class whose ghost history holds every record written
  to it. Its invariant is that no record holds a result and an error at once.
- **Popup** (`popup.dfy`). This covers the distinct-citation source count,
  the loading-message rotation, adopting state from storage, `startCapture`,
  `reset`, and the condition for showing the initial panel
  (`PopupView.ShowsInitialPanel`, Popup.tsx line 154).
- **Content-script selection** (`content.dfy`). This is the selection state
  machine and the rectangle spanned by a drag.

Some behaviours of the code matter for what the proofs say:

- The reply clean-up matches "```json" and "```" case-sensitively.
- It deletes every fence anywhere in the reply, not only one at the start
  or the end, so a "```" inside a JSON string value is deleted too.
- Decoded replies are not checked for their fields. A missing field reads
  as `undefined`, and a missing `question` goes to the search call as it
  is. Only a decoded `null` (or `undefined`) makes a property read throw.
- An empty-string search answer gets the "No summary available"
  placeholder, exactly as a missing one does.

## Model

| member | source | states |
|---|---|---|
| ModelText.Trim | backend/src/index.ts:75 | The result has no JavaScript whitespace at either end, and it is a contiguous slice of the input with only whitespace cut off around it |
| ModelText.StripAll | backend/src/index.ts:75 | The global replacement of a pattern plus an optional newline never lengthens the text, and leaves text without the pattern's first character unchanged |
| ModelText.Clean | backend/src/index.ts:75 | The cleaned reply contains no three consecutive backticks, has no whitespace at either end, and is no longer than the reply |
| ModelText.StripFenceLeavesNoFence | backend/src/index.ts:75 | After the global replacement of "```" plus an optional newline, no three consecutive backticks remain, whatever the input |
| ModelText.StripFenceFreeUnchanged | backend/src/index.ts:75 | Both replacements ("```json\n?" and "```\n?") leave text without three consecutive backticks unchanged |
| ModelText.CleanIdempotent | backend/src/index.ts:125 | Cleaning already-cleaned text returns it unchanged |
| ModelText.CleanWithoutBackticks | backend/src/index.ts:75 | For text with no backtick, cleaning is the same as trimming |
| ModelText.CleanFencedReply | backend/src/index.ts:125 | A backtick-free reply wrapped in "```json" fences or in bare "```" fences cleans to the same text as the bare reply |
| Digits.DecimalRoundTrip | backend/src/index.ts:87 | The rendered rank is non-empty, all digits and without a leading zero, and reading it back gives the rank |
| Digits.DigitRun | extension/src/popup/Popup.tsx:121 | The length of the maximal digit run at the start of a string, which is what `\d+` consumes |
| Evidence.SummarySlot | backend/src/index.ts:104 | The slot is the search answer when it is a non-empty string, and exactly "No summary available" otherwise; it is never empty |
| Evidence.Join | backend/src/index.ts:89 | A non-empty join starts with the first part |
| Evidence.JoinSnoc | backend/src/index.ts:89 | Joining one more part appends the separator and then the part; a single part is joined to itself |
| Evidence.EvidenceBlock | backend/src/index.ts:85-89 | The block is empty exactly when there are no search results; otherwise it opens with the label `[1]` |
| Evidence.EvidenceBlockSnoc | backend/src/index.ts:85-89 | The block has one entry per result, in result order; the result at index k becomes entry `[k+1] title\ncontent\nSource: url`, separated from the previous entries by a blank line |
| Evidence.Entry | backend/src/index.ts:87 | Each entry opens with a bracketed label that reads back as the result's 1-based rank |
| VerifyHandler.HandleVerify | backend/src/index.ts:25-137 | Every reply is one of three: the verdict with status 200, the 400 "No image uploaded", or the single 500 "Failed to verify image". The 400 is sent exactly when the image entry is missing or the empty string, and no call is made before it |
| VerifyHandler.Verify | backend/src/index.ts:39-133 | Once a file is read, the extraction call always goes first and at most three calls are made. A second call is the search for the decoded `question`, with answers requested. If building the verdict prompt throws, the handler stops after those two calls. Status 200 comes exactly with the verdict body, and every other reply is the uniform 500 |
| VerifyHandler.Property | backend/src/index.ts:77-78 | Reading a property throws exactly on `null` or `undefined`. A present key gives its value; anything else gives `undefined` |
| VerifyHandler.Interpolate | backend/src/index.ts:98 | Converting the claim to text throws exactly when it is an object with its own `toString` key, or an array that holds one at any depth. Otherwise a string claim appears verbatim, a missing claim becomes "undefined", `null` becomes "null", another object becomes "[object Object]", and an empty array becomes the empty string |
| VerifyHandler.VerdictExactlyOnSuccess | backend/src/index.ts:69-133 | Status 200 is sent iff the extraction and its decode, the search, the claim's conversion to text, and the verdict call and its decode all succeed. The body is then `{question, claim}` from the first decode and `{validity, response}` from the second, after exactly those three calls in order. Any failure gives the 500 and no partial result |
| VerifyHandler.ExtractionFailureSkipsSearch | backend/src/index.ts:69-82 | If the extraction call or its decode fails, the reply is the 500 and the search service is never called |
| VerifyHandler.ImageBeforeInstructions | backend/src/index.ts:42-67 | The first call sends the image, as `image/jpeg` with the base64 of the upload, before the instruction text |
| VerifyHandler.NoEvidenceStillJudged | backend/src/index.ts:85-104 | With no search results and no answer, and a claim that converts to text, the verdict call still goes out, with an empty evidence block and the placeholder summary |
| VerifyHandler.UnprintableClaimSkipsVerdict | backend/src/index.ts:96-133 | When the decoded claim is an object with its own `toString` key, the template literal throws. The reply is the 500 after the extraction and search calls, and the verdict call is never made |
| VerifyHandler.NullExtractionFails | backend/src/index.ts:76-78 | An extraction reply that decodes to `null` ends in the 500 after the single model call |
| DataUrl.MimeType | extension/src/background/background.ts:23 | The MIME type is the capture of the leftmost `/:(.*?);/` match when that capture is non-empty, and exactly `image/jpeg` when there is no match or the capture is empty |
| DataUrl.MimeTypeFirstColon | extension/src/services/api.ts:24 | On a header without line breaks, the MIME type is the text between the first `:` and the next `;`, or `image/jpeg` when either is missing or that text is empty |
| DataUrl.Header | extension/src/background/background.ts:22-23 | `parts[0]` is the comma-free prefix of the URL, ending at the first comma or at the end |
| DataUrl.Payload | extension/src/background/background.ts:22-24 | `parts[1]` is undefined exactly when the URL has no comma. Otherwise it is the comma-free text right after the first comma, and it ends at the second comma or at the end of the URL |
| DataUrl.LazyUpToSemicolon | extension/src/background/background.ts:23 | What the lazy `(.*?);` takes is the text before the next `;`, with no `;` and no line terminator in it |
| DataUrl.MimeCapture | extension/src/background/background.ts:23 | A capture, when there is one, follows some `:` of the header and holds no `;` and no line terminator |
| DataUrl.DataUrlMime | extension/src/background/background.ts:21-24 | For `data:<m>;<params>,<payload>` with `m` non-empty and free of `:`, `;`, `,` and line breaks, the MIME type is `m` |
| DataUrl.BlobType | extension/src/background/background.ts:32 | The `type` a `Blob` keeps is empty when its argument holds a character outside U+0020 to U+007E. Otherwise it is the argument in ASCII lower case |
| DataUrl.BlobTypeIdempotent | extension/src/background/background.ts:32 | Normalising a type twice is normalising it once, and `image/jpeg` is already normal |
| DataUrl.PayloadIsSecondSegment | extension/src/services/api.ts:23-25 | The header is the text before the first comma. The payload is the text between the first and second comma, and anything after a second comma is dropped. With no comma the payload is undefined |
| DataUrl.CharCodes | extension/src/background/background.ts:29 | One byte per decoded character; each byte is the character's code whenever that code fits in a byte |
| DataUrl.FillBytes | extension/src/services/api.ts:26-31 | The array's length is the decoded length, and byte i is the code of character i modulo 256. The loop writes every index exactly once, from the last down to 0 |
| DataUrl.DataUrlToBlob | extension/src/background/background.ts:21-33 | Throws exactly when `atob` throws on `parts[1]`, with the same error. Otherwise the blob holds the decoded char codes, and its `type` is the header's MIME type as the `Blob` constructor normalises it |
| Background.Completion | extension/src/background/background.ts:53-111 | The settled record is not loading and never has both a result and an error. When decoding failed, the error is the decoder's message. Otherwise the record holds the API's own result, or the timeout message, or the thrown `Error`'s message ("Failed to verify image" for a non-Error) |
| Background.CaptureFailure | extension/src/background/background.ts:116-123 | The record is not loading and has no result. Its error is the message's error when non-empty, and exactly "Failed to capture screenshot" otherwise |
| Background.OnCaptureComplete | extension/src/background/background.ts:50-114 | With non-empty image data, it writes `{isLoading: true, result: null, error: null}` and then the settled record; otherwise it writes nothing. Storage keeps its invariant that no record has both a result and an error |
| Background.OnCaptureError | extension/src/background/background.ts:116-124 | It writes the capture-failure record, keeping the storage invariant |
| Types.LocalStorage.Set | extension/src/background/background.ts:117-123 | `chrome.storage.local.set({popupState})`: the record becomes the stored state and is appended to the write history |
| Types.LocalStorage.Remove | extension/src/popup/Popup.tsx:132 | `chrome.storage.local.remove(['popupState'])`: no state is stored afterwards, and the write history is unchanged |
| Popup.SourceCount | extension/src/popup/Popup.tsx:120-123 | The count never exceeds the number of matches, and it is 0 exactly when nothing matched |
| Popup.Citations | extension/src/popup/Popup.tsx:121 | Every string the global `\[\d+\]` match returns is a bracket, a non-empty run of digits, and a bracket |
| Popup.CitationsSound | extension/src/popup/Popup.tsx:121 | Every string the global `\[\d+\]` match returns is a bracketed digit token occurring in the text |
| Popup.CitationsComplete | extension/src/popup/Popup.tsx:121 | Every bracketed digit token occurring in the text is among the matches |
| Popup.SourceCountIsDistinctTokens | extension/src/popup/Popup.tsx:120-123 | The source count is the number of distinct citation tokens in the response, so a repeated citation counts once |
| Popup.NextMessageIndex | extension/src/popup/Popup.tsx:28-30 | The next index is below 4; it is the previous index plus one, wrapping from 3 to 0 |
| Popup.RotationAdvances | extension/src/popup/Popup.tsx:28-34 | After k ticks from a valid index i, the index is (i + k) mod 4, so four ticks bring it back |
| Popup.Adopt | extension/src/popup/Popup.tsx:53-60 | When the serialisations differ the stored result is taken, and otherwise the current one is kept. The view's result is then present iff the stored one is, and serialises the same |
| Popup.AdoptInjective | extension/src/popup/Popup.tsx:53-60 | With a one-to-one serialisation, the adopted result is always the stored one |
| Popup.PopupView.constructor | extension/src/popup/Popup.tsx:13-26 | The view starts not loading, with no result, no error, not capturing, and message index 0 |
| Popup.PopupView.IncrementMessageIndex | extension/src/popup/Popup.tsx:28-30 | The index advances by one modulo 4 and stays in 0..3 |
| Popup.PopupView.OnLoadingChanged | extension/src/popup/Popup.tsx:32-39 | When loading is false the index is reset to 0; otherwise it is unchanged |
| Popup.PopupView.UpdateStateFromStorage | extension/src/popup/Popup.tsx:44-70 | With no stored state, the view resets to not loading, no result and no error, so the initial panel (line 154) shows unless a capture is starting. Otherwise it takes `isLoading \|\| false`, `error \|\| null` and the adopted result. A stored record without both result and error yields a view without both |
| Popup.PopupView.StartCapture | extension/src/popup/Popup.tsx:97-117 | Clears result and error and sets capturing, which hides the initial panel (line 154). If the tab call throws, capturing is cleared and the start-failure message is shown. The popup closes exactly when the message reached a tab |
| Popup.PopupView.Reset | extension/src/popup/Popup.tsx:126-133 | Clears result and error, sets capturing and loading false, and removes the stored state, so the initial panel shows (line 154) |
| Selection.DragRect | extension/src/content/content.ts:72-80 | Width and height are non-negative. Left/top and right/bottom are exactly the two x and the two y coordinates, so both drag points lie on the box |
| Selection.DragDirectionIrrelevant | extension/src/content/content.ts:72-75 | The box is the same whichever way the drag went |
| Selection.SelectionController.constructor | extension/src/content/content.ts:1-5 | The script starts not selecting, with no overlay, no box, and start point (0, 0) |
| Selection.SelectionController.StartScreenCapture | extension/src/content/content.ts:14-50 | A no-op while selecting. Otherwise it sets selecting and creates the overlay and a hidden, unpositioned box |
| Selection.SelectionController.HandleMouseDown | extension/src/content/content.ts:52-64 | Records the start point and shows the box at that point with zero width and height |
| Selection.SelectionController.HandleMouseMove | extension/src/content/content.ts:66-81 | Does nothing when the box is absent or hidden. Otherwise the box becomes the drag rectangle of the start and current points |
| Selection.SelectionController.Cleanup | extension/src/content/content.ts:130-142 | Afterwards it is not selecting, and overlay and box are gone |
| Selection.SelectionController.HandleMouseUp | extension/src/content/content.ts:83-95 | Does nothing without a box. Otherwise it captures the box's rectangle before cleaning up; a displayed box always yields a rectangle |
| Selection.SelectionController.CancelSelection | extension/src/content/content.ts:121-128 | Cleans up and reports the error "Capture cancelled" |
| Selection.DragOnce | extension/src/content/content.ts:52-95 | Start, press at one point, move to another and release: the captured rectangle is the one spanned by the two points |

## Left out

- The Gemini and Tavily services are parameters that return or throw. No claim is made about what they return.
- `JSON.parse`, `encodeBase64` and `atob` are parameters too. A decoded number is represented by the text JavaScript renders it as.
- Hono routing, CORS, the `/healthCheck` route and the construction of the two clients are framework plumbing and are not modelled.
- The HTTP body is a record. `c.json` dropping `undefined` fields when it serialises is not modelled.
- `fetch` in `verifyImage` is not modelled. Its outcome (a response, an `Error` such as "API request failed", a non-Error throw, or the 60-second timeout winning the race) is a parameter of `Background.OnCaptureComplete`.
- Background.OnCaptureComplete: the timer, and the repeated writes of the same record 100 ms later, are timing. The history records each distinct write once. A failing `chrome.storage.local.set` is not modelled.
- The `CAPTURE_SCREENSHOT` handler (`captureVisibleTab`) and all `chrome.runtime` messaging are browser I/O. Their results are method parameters or return values.
- The storage-change listener and the 300 ms polling that trigger `updateStateFromStorage` are timing. So are the 3-second interval that drives `IncrementMessageIndex` and the camera-flash timeout.
- React rendering, JSX and framer-motion are not modelled. Only the initial-panel condition and the loading-message index are kept.
- Popup.Adopt: `JSON.stringify` is a parameter, not JSON text generation. The stored result is typed as a verification response, although the extension does not check what the API returned.
- Selection: the DOM overlay and CSS text are not modelled, nor is the canvas `cropImage`. Coordinates are integers, so `parseInt` of the pixel strings reads them back exactly. Fractional pixel values are not modelled.
- DataUrl.FillBytes: `charCodeAt` is modelled as the Unicode scalar value of a character. It matches JavaScript's UTF-16 code unit for every character `atob` can produce, all of which are below 256.
- `extension/src/types/index.ts` has no logic. Its `VerificationResponse` and `VerificationState` shapes are the datatypes in `types.dfy`.
