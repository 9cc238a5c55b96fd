/** The `/verify-new` request handler: a straight pipeline of extraction
    call, decode, search, verdict call, decode, reply. The generative model,
    the search service, `JSON.parse` and `encodeBase64` are parameters; the
    handler returns its reply together with the outbound calls it made. */
module VerifyHandler {
  import opened Wrappers
  import opened Types
  import opened ModelText
  import opened Evidence
  import opened Prompts

  const Model: string := "gemini-2.5-flash"

  /** A decoded JSON value, plus `undefined` for a missing property. A
      number carries the text JavaScript renders it as. */
  datatype Js =
    | Undefined
    | Null
    | Boolean(b: bool)
    | Number(text: string)
    | Str(s: string)
    | Array(elements: seq<Js>)
    | Object(properties: map<string, Js>)

  /** What `formData.get('image')` can return besides `null`. */
  datatype FormEntry = File(bytes: seq<Byte>) | Field(value: string)

  /** One segment of a generation request. */
  datatype Part = InlineData(mimeType: string, data: string) | TextPart(text: string)

  /** An outbound call, in the order the handler makes them. */
  datatype Call = Generate(model: string, contents: seq<Part>) | Search(query: Js, includeAnswers: bool)

  datatype Body =
    | Verdict(question: Js, claim: Js, validity: Js, response: Js)
    | ErrorBody(error: string)

  datatype Reply = Reply(status: nat, body: Body)

  datatype Exchange = Exchange(reply: Reply, calls: seq<Call>)

  /** The collaborators; each either returns or throws (a `Failure`
      carrying what was thrown). `generate` yields the reply's `text`, which
      may be undefined. */
  datatype Services = Services(
    encodeBase64: seq<Byte> -> string,
    jsonParse: string -> Result<Js, string>,
    generate: seq<Part> -> Result<Option<string>, string>,
    search: Js -> Result<SearchResponse, string>)

  const NoImage: Reply := Reply(400, ErrorBody("No image uploaded"))
  const VerifyFailed: Reply := Reply(500, ErrorBody("Failed to verify image"))

  /** Property access `v.key`: throws on `null` and `undefined`, gives
      `undefined` for a key an object lacks and for non-objects. */
  function Property(v: Js, key: string): (r: Result<Js, string>)
    ensures r.Failure? <==> v.Undefined? || v.Null?
    ensures v.Object? && key in v.properties ==> r == Success(v.properties[key])
    ensures r.Success? && !(v.Object? && key in v.properties) ==> r.value == Undefined
  {
    match v
    case Undefined => Failure("TypeError")
    case Null => Failure("TypeError")
    case Object(props) => Success(if key in props then props[key] else Undefined)
    case _ => Success(Undefined)
  }

  /** Whether converting `v` to a string throws. A decoded object with its
      own `toString` key has a non-callable `toString`, and the inherited
      `valueOf` returns the object itself, so the conversion throws a
      `TypeError`. An array converts each element that is not `null` or
      `undefined`, so it throws when one of those does. */
  predicate ToStringThrows(v: Js)
    decreases v
  {
    match v
    case Object(props) => "toString" in props
    case Array(es) => exists i :: 0 <= i < |es| && ToStringThrows(es[i])
    case _ => false
  }

  /** The text a template literal substitutes for `v`, or the `TypeError`
      the conversion throws. */
  function Interpolate(v: Js): (r: Result<string, string>)
    ensures r.Failure? <==> ToStringThrows(v)
    ensures v.Str? ==> r == Success(v.s)
    ensures v.Undefined? ==> r == Success("undefined")
    ensures v.Null? ==> r == Success("null")
    ensures v.Object? && "toString" !in v.properties ==> r == Success("[object Object]")
    ensures v.Array? && v.elements == [] ==> r == Success("")
    decreases v
  {
    match v
    case Undefined => Success("undefined")
    case Null => Success("null")
    case Boolean(b) => Success(if b then "true" else "false")
    case Number(t) => Success(t)
    case Str(s) => Success(s)
    case Array(es) =>
      var parts := seq(|es|, i requires 0 <= i < |es| =>
        if es[i].Undefined? || es[i].Null? then Success("") else Interpolate(es[i]));
      if exists i :: 0 <= i < |parts| && parts[i].Failure? then
        Failure("TypeError")
      else
        assert forall i :: 0 <= i < |es| ==> !ToStringThrows(es[i]) by {
          forall i | 0 <= i < |es|
            ensures !ToStringThrows(es[i])
          {
            assert !parts[i].Failure?;
          }
        }
        Success(Join(seq(|parts|, i requires 0 <= i < |parts| => parts[i].value), ","))
    case Object(props) => if "toString" in props then Failure("TypeError") else Success("[object Object]")
  }

  /** Truthiness of `formData.get('image')`: `null` and the empty string are falsy. */
  predicate Uploaded(entry: Option<FormEntry>) {
    entry.Some? && entry.value != Field("")
  }

  /** The extraction request: the image part first, then the instructions. */
  function ExtractionContents(base64Image: string): seq<Part> {
    [InlineData("image/jpeg", base64Image), TextPart(ExtractionInstructions)]
  }

  function VerdictPrompt(claim: string, evidence: string, summary: string): string {
    VerdictOpening + claim + VerdictBeforeEvidence + evidence + VerdictBeforeSummary + summary + VerdictInstructions
  }

  /** The verdict request for a claim, as text, and a search reply. */
  function VerdictContents(claim: string, found: SearchResponse): seq<Part> {
    [TextPart(VerdictPrompt(claim, EvidenceBlock(found.results), SummarySlot(found.answer)))]
  }

  /** `JSON.parse(cleaned (response.text ?? ''))`, after a generation call. */
  function DecodeReply(reply: Result<Option<string>, string>, parse: string -> Result<Js, string>): Result<Js, string> {
    match reply
    case Failure(e) => Failure(e)
    case Success(text) => parse(Clean(text.GetOr("")))
  }

  /** Reads two properties of a decoded object, in order. */
  function Pair(v: Js, first: string, second: string): Result<(Js, Js), string> {
    match Property(v, first)
    case Failure(e) => Failure(e)
    case Success(a) =>
      match Property(v, second)
      case Failure(e) => Failure(e)
      case Success(b) => Success((a, b))
  }

  /** Stage 1: the decoded `(question, extracted_claim)` of the extraction reply. */
  function Extraction(image: seq<Byte>, svc: Services): Result<(Js, Js), string> {
    match DecodeReply(svc.generate(ExtractionContents(svc.encodeBase64(image))), svc.jsonParse)
    case Failure(e) => Failure(e)
    case Success(json) => Pair(json, "question", "extracted_claim")
  }

  /** Stage 3: the decoded `(validity, response)` of the verdict reply. */
  function Judgement(claim: string, found: SearchResponse, svc: Services): Result<(Js, Js), string> {
    match DecodeReply(svc.generate(VerdictContents(claim, found)), svc.jsonParse)
    case Failure(e) => Failure(e)
    case Success(json) => Pair(json, "validity", "response")
  }

  /** The handler once an uploaded file is in hand: the extraction call
      always goes out first, at most three calls are made, and any reply
      other than the verdict is the uniform 500. */
  function Verify(image: seq<Byte>, svc: Services): (x: Exchange)
    ensures 1 <= |x.calls| <= 3
    ensures x.calls[0] == Generate(Model, ExtractionContents(svc.encodeBase64(image)))
    ensures x.reply.status == 200 <==> x.reply.body.Verdict?
    ensures x.reply.status != 200 ==> x.reply == VerifyFailed
    ensures |x.calls| >= 2 ==> Extraction(image, svc).Success? && x.calls[1] == Search(Extraction(image, svc).value.0, true)
  {
    var extractCall := Generate(Model, ExtractionContents(svc.encodeBase64(image)));
    match Extraction(image, svc)
    case Failure(_) => Exchange(VerifyFailed, [extractCall])
    case Success((question, claim)) =>
      var searchCall := Search(question, true);
      match svc.search(question)
      case Failure(_) => Exchange(VerifyFailed, [extractCall, searchCall])
      case Success(found) =>
        match Interpolate(claim)
        // building the verdict prompt threw
        case Failure(_) => Exchange(VerifyFailed, [extractCall, searchCall])
        case Success(claimText) =>
          var calls := [extractCall, searchCall, Generate(Model, VerdictContents(claimText, found))];
          match Judgement(claimText, found, svc)
          case Failure(_) => Exchange(VerifyFailed, calls)
          case Success((validity, response)) => Exchange(Reply(200, Verdict(question, claim, validity, response)), calls)
  }

  /** `POST /verify-new`. `form` is the parsed form data's `image` entry,
      or what reading the form threw. Every reply is the verdict, the 400
      for a missing image, or the one uniform 500; a verdict always comes
      with status 200 and nothing else does; a missing image makes no call. */
  function HandleVerify(form: Result<Option<FormEntry>, string>, svc: Services): (x: Exchange)
    ensures x.reply.status == 200 <==> x.reply.body.Verdict?
    ensures x.reply.status != 200 ==> x.reply == NoImage || x.reply == VerifyFailed
    ensures x.reply == NoImage <==> form.Success? && !Uploaded(form.value)
    ensures x.reply == NoImage ==> x.calls == []
    ensures |x.calls| <= 3
  {
    match form
    case Failure(_) => Exchange(VerifyFailed, [])
    case Success(entry) =>
      if !Uploaded(entry) then Exchange(NoImage, [])
      else
        match entry.value
        // a text field has no `arrayBuffer()`: calling it throws
        case Field(_) => Exchange(VerifyFailed, [])
        case File(bytes) => Verify(bytes, svc)
  }

  // ---------------------------------------------------------------------------

  /** Every stage succeeded. */
  predicate Succeeds(image: seq<Byte>, svc: Services) {
    var e := Extraction(image, svc);
    e.Success? && svc.search(e.value.0).Success? && Interpolate(e.value.1).Success? &&
    Judgement(Interpolate(e.value.1).value, svc.search(e.value.0).value, svc).Success?
  }

  /** The reply is the verdict exactly when every stage succeeded
      (extraction and its decode, the search, the claim's conversion to
      text, the verdict call and its decode); it is then `{question, claim}`
      from the extraction decode and `{validity, response}` from the verdict
      decode, after exactly the three calls in order. Otherwise it is the uniform 500, with no partial result. */
  lemma VerdictExactlyOnSuccess(image: seq<Byte>, svc: Services)
    ensures Verify(image, svc).reply.status == 200 <==> Succeeds(image, svc)
    ensures Succeeds(image, svc) ==>
      var (question, claim) := Extraction(image, svc).value;
      var found := svc.search(question).value;
      var claimText := Interpolate(claim).value;
      var (validity, response) := Judgement(claimText, found, svc).value;
      Verify(image, svc) == Exchange(
        Reply(200, Verdict(question, claim, validity, response)),
        [Generate(Model, ExtractionContents(svc.encodeBase64(image))),
         Search(question, true),
         Generate(Model, VerdictContents(claimText, found))])
    ensures !Succeeds(image, svc) ==> Verify(image, svc).reply == VerifyFailed
  {
  }

  /** When the extraction reply cannot be generated or decoded, the search
      service is never called and the reply is the uniform 500. */
  lemma ExtractionFailureSkipsSearch(image: seq<Byte>, svc: Services)
    ensures Extraction(image, svc).Failure? ==> Verify(image, svc).reply == VerifyFailed
    ensures Extraction(image, svc).Failure? ==> forall c :: c in Verify(image, svc).calls ==> c.Generate?
  {
  }

  /** The first call carries the image (as JPEG) before the instruction text. */
  lemma ImageBeforeInstructions(bytes: seq<Byte>, svc: Services)
    ensures Verify(bytes, svc).calls != []
    ensures Verify(bytes, svc).calls[0].Generate?
    ensures Verify(bytes, svc).calls[0].contents[0] == InlineData("image/jpeg", svc.encodeBase64(bytes))
    ensures Verify(bytes, svc).calls[0].contents[1] == TextPart(ExtractionInstructions)
  {
  }

  /** With no search results and no answer, the verdict request still goes
      out, with an empty evidence block and the placeholder summary. */
  lemma NoEvidenceStillJudged(image: seq<Byte>, svc: Services)
    ensures (Extraction(image, svc).Success? && svc.search(Extraction(image, svc).value.0) == Success(SearchResponse([], None)) &&
             Interpolate(Extraction(image, svc).value.1).Success?) ==>
      |Verify(image, svc).calls| == 3 &&
      Verify(image, svc).calls[2] ==
        Generate(Model, [TextPart(VerdictPrompt(Interpolate(Extraction(image, svc).value.1).value, "", NoSummary))])
  {
  }

  /** A claim whose conversion to text throws ends the request with the
      500 after the extraction and the search: the verdict call is never
      made. */
  lemma UnprintableClaimSkipsVerdict(image: seq<Byte>, svc: Services)
    ensures (Extraction(image, svc).Success? && svc.search(Extraction(image, svc).value.0).Success? &&
             ToStringThrows(Extraction(image, svc).value.1)) ==>
      Verify(image, svc) == Exchange(VerifyFailed,
        [Generate(Model, ExtractionContents(svc.encodeBase64(image))), Search(Extraction(image, svc).value.0, true)])
  {
  }

  /** A decoded `null` has no properties: reading the extraction's
      `question` throws, which ends in the uniform 500 before any search. */
  lemma NullExtractionFails(image: seq<Byte>, svc: Services)
    ensures DecodeReply(svc.generate(ExtractionContents(svc.encodeBase64(image))), svc.jsonParse) == Success(Null) ==>
      Verify(image, svc) == Exchange(VerifyFailed, [Generate(Model, ExtractionContents(svc.encodeBase64(image)))])
  {
  }
}
