/**
 The edit gateway (`editImageWithGemini` in services/geminiService.ts):
 one request to the hosted image model, and the mapping of whatever comes
 back -- an image part, a text-only answer, a malformed answer or a thrown
 failure -- onto an `EditResponse`. The remote call itself is an oracle,
 `Service`, from the request that goes on the wire to its outcome.
 */
module Gateway {
  import opened Js

  /** `EditRequest` of types.ts: a data URL, the instruction and the upload's MIME type. */
  datatype EditRequest = EditRequest(image: string, prompt: string, mimeType: string)

  /** `EditResponse` of types.ts: `imageUrl` is '' on failure, `error` is absent on success. */
  datatype EditResponse = EditResponse(imageUrl: string, error: Option<string>)

  /** The `generateContent` call as it goes on the wire: an inline-data part and a text part. */
  datatype WireRequest = WireRequest(model: string, data: Option<string>, mimeType: string, prompt: string)

  /** Inline image bytes of a response part; the SDK declares both fields optional. */
  datatype Blob = Blob(mimeType: Option<string>, data: Option<string>)

  /** A response part. `text` only mirrors the SDK's shape: the gateway reads `response.text`, never a part's text. */
  datatype Part = Part(inlineData: Option<Blob>, text: Option<string>)

  datatype Content = Content(parts: Option<seq<Part>>)

  datatype Candidate = Candidate(content: Option<Content>)

  /**
   The model's answer. `text` is the SDK's `response.text` accessor, whose
   derivation from the parts belongs to the SDK and is taken as given.
   */
  datatype GenerateResponse = GenerateResponse(candidates: Option<seq<Candidate>>, text: Option<string>)

  /** Either the awaited call yields a response or it throws an error with a message. */
  datatype CallOutcome = Answered(response: GenerateResponse) | Failed(message: string)

  /** The remote model, as seen from this client: anything it likes, per request. */
  type Service = WireRequest -> CallOutcome

  /** How the `try` block of the gateway ends: with a URL in hand, or by throwing. */
  datatype Attempt = Produced(url: string) | Threw(message: string)

  const ModelName: string := "gemini-2.5-flash-image"
  const NoImageText: string := "No image generated"
  const ModelReturnedPrefix: string := "Model returned: "
  const DefaultError: string := "An unexpected error occurred while editing the image."

  /** What a JavaScript engine (V8 wording) throws on `candidates[0].content` of an empty list. */
  const ContentOfUndefined: string := "Cannot read properties of undefined (reading 'content')"
  /** What it throws on `.content.parts` when the first candidate has no content. */
  const PartsOfUndefined: string := "Cannot read properties of undefined (reading 'parts')"

  /** Starts with the `data:` scheme (and so is never the empty string). */
  predicate IsDataUrl(url: string) {
    |url| >= 5 && url[..5] == "data:"
  }

  /** `data:${mime};base64,${data}`. */
  function DataUrl(mime: string, data: string): (url: string)
    ensures IsDataUrl(url)
  {
    "data:" + mime + ";base64," + data
  }

  /** `image.split(',')[1]`: undefined when the image holds no comma. */
  function PayloadOf(image: string): (payload: Option<string>)
    ensures payload.None? <==> ',' !in image
    ensures payload.Some? ==> ',' !in payload.value
  {
    var parts := Split(image, ',');
    PayloadPresentIffComma(image);
    if |parts| >= 2 then Some(parts[1]) else None
  }

  /** The split has a second piece exactly when there is a comma to split at. */
  lemma {:induction false} PayloadPresentIffComma(image: string)
    ensures |Split(image, ',')| >= 2 <==> ',' in image
    decreases |image|
  {
    if |image| > 0 {
      PayloadPresentIffComma(image[1..]);
      assert image == [image[0]] + image[1..];
    }
  }

  /** The payload is the text between the first comma and the next comma (or the end). */
  lemma {:induction false} PayloadIsSecondSegment(pre: string, data: string, tail: string)
    requires ',' !in pre && ',' !in data
    requires tail == "" || tail[0] == ','
    ensures PayloadOf(pre + "," + data + tail) == Some(data)
  {
    var s := pre + "," + data + tail;
    assert s == pre + ([','] + (data + tail));
    SplitPrefix(pre, [','] + (data + tail), ',');
    assert ([','] + (data + tail))[1..] == data + tail;
    SplitPrefix(data, tail, ',');
    if tail == "" {
      assert data + tail == data;
      SplitPrefix(data, "", ',');
      assert data + "" == data;
    } else {
      assert Split(tail, ',') == [""] + Split(tail[1..], ',');
      assert data + "" == data;
    }
  }

  /** Extracting the payload of a URL built by `DataUrl` gives back the data. */
  lemma DataUrlRoundTrip(mime: string, data: string)
    requires ',' !in mime && ',' !in data
    ensures PayloadOf(DataUrl(mime, data)) == Some(data)
  {
    assert DataUrl(mime, data) == ("data:" + mime + ";base64") + "," + data + "";
    PayloadIsSecondSegment("data:" + mime + ";base64", data, "");
  }

  /** The request the gateway hands to `generateContent`. */
  function WireFor(req: EditRequest): (w: WireRequest)
    ensures w.model == ModelName
    ensures w.data.None? <==> ',' !in req.image
    ensures w.data == PayloadOf(req.image)
    ensures w.mimeType == req.mimeType && w.prompt == req.prompt
  {
    WireRequest(ModelName, PayloadOf(req.image), req.mimeType, req.prompt)
  }

  /** The loop over the parts: the inline data of the first part that carries any. */
  function FirstInline(parts: seq<Part>): (b: Option<Blob>)
    ensures b.None? ==> forall i :: 0 <= i < |parts| ==> parts[i].inlineData.None?
    ensures b.Some? ==> exists i :: 0 <= i < |parts| && parts[i].inlineData == b && NoneBefore(parts, i)
  {
    if |parts| == 0 then None
    else if parts[0].inlineData.Some? then
      assert NoneBefore(parts, 0);
      parts[0].inlineData
    else
      var b := FirstInline(parts[1..]);
      if b.Some? then
        var i :| 0 <= i < |parts[1..]| && parts[1..][i].inlineData == b && NoneBefore(parts[1..], i);
        assert parts[i + 1].inlineData == b && NoneBefore(parts, i + 1);
        b
      else
        b
  }

  /** No part before index `i` carries inline data. */
  predicate NoneBefore(parts: seq<Part>, i: int)
    requires 0 <= i <= |parts|
  {
    forall j :: 0 <= j < i ==> parts[j].inlineData.None?
  }

  /** Once an image part has been found, further parts are never looked at. */
  lemma {:induction false} LaterPartsIgnored(parts: seq<Part>, more: seq<Part>)
    requires FirstInline(parts).Some?
    ensures FirstInline(parts + more) == FirstInline(parts)
  {
    if parts[0].inlineData.None? {
      assert (parts + more)[1..] == parts[1..] + more;
      LaterPartsIgnored(parts[1..], more);
    }
  }

  /** The first part with inline data is the one the loop picks. */
  lemma {:induction false} FirstImagePartWins(parts: seq<Part>, i: int)
    requires 0 <= i < |parts| && parts[i].inlineData.Some? && NoneBefore(parts, i)
    ensures FirstInline(parts) == parts[i].inlineData
  {
    if i > 0 {
      assert NoneBefore(parts[1..], i - 1);
      FirstImagePartWins(parts[1..], i - 1);
    }
  }

  /** The scan of the answer: the URL built from its first image part ('' if none), or the TypeError a property read throws. */
  function Generated(resp: GenerateResponse): (a: Attempt)
    ensures a.Produced? && a.url != "" ==> IsDataUrl(a.url)
  {
    match resp.candidates
    case None => Produced("")
    case Some(cs) =>
      if |cs| == 0 then Threw(ContentOfUndefined)
      else match cs[0].content
        case None => Threw(PartsOfUndefined)
        case Some(content) =>
          match content.parts
          case None => Produced("")
          case Some(parts) =>
            match FirstInline(parts)
            case None => Produced("")
            case Some(blob) => Produced(DataUrl(Render(blob.mimeType), Render(blob.data)))
  }

  /** The message thrown when the answer holds no image. */
  function NoImageMessage(text: Option<string>): (m: string)
    ensures Truthy(m)
    ensures text.Some? && Truthy(text.value) ==> m == ModelReturnedPrefix + text.value
    ensures (text.None? || !Truthy(text.value)) ==> m == ModelReturnedPrefix + NoImageText
  {
    ModelReturnedPrefix + OrElse(text, NoImageText)
  }

  /** The `try` block: call the service, then turn the answer into a URL or throw. */
  function TryEdit(req: EditRequest, service: Service): (a: Attempt)
    ensures a.Produced? ==> Truthy(a.url)
  {
    match service(WireFor(req))
    case Failed(m) => Threw(m)
    case Answered(resp) =>
      match Generated(resp)
      case Threw(m) => Threw(m)
      case Produced(url) =>
        if Truthy(url) then Produced(url) else Threw(NoImageMessage(resp.text))
  }

  /** `editImageWithGemini`: never throws; exactly one of image and error is present. */
  function EditImage(req: EditRequest, service: Service): (r: EditResponse)
    ensures r.error.None? <==> Truthy(r.imageUrl)
    ensures r.error.Some? ==> r.imageUrl == "" && Truthy(r.error.value)
    ensures r.error.None? ==> IsDataUrl(r.imageUrl)
  {
    match TryEdit(req, service)
    case Produced(url) => EditResponse(url, None)
    case Threw(m) => EditResponse("", Some(Or(m, DefaultError)))
  }

  /** The first candidate's parts, when the response can be read that far without throwing. */
  predicate HasParts(resp: GenerateResponse, parts: seq<Part>) {
    && resp.candidates.Some?
    && |resp.candidates.value| > 0
    && resp.candidates.value[0].content == Some(Content(Some(parts)))
  }

  /**
   Success: the first image part decides, and the URL carries the part's own
   MIME type and data, whatever MIME type the request declared.
   */
  lemma SuccessFromFirstImagePart(req: EditRequest, service: Service, resp: GenerateResponse, parts: seq<Part>, i: int)
    requires service(WireFor(req)) == Answered(resp) && HasParts(resp, parts)
    requires 0 <= i < |parts| && parts[i].inlineData.Some? && NoneBefore(parts, i)
    ensures var b := parts[i].inlineData.value;
      EditImage(req, service) == EditResponse("data:" + Render(b.mimeType) + ";base64," + Render(b.data), None)
  {
    FirstImagePartWins(parts, i);
  }

  /** The answer can be read without throwing, and its first candidate holds no inline data. */
  predicate ReadableWithoutImage(resp: GenerateResponse) {
    match resp.candidates
    case None => true
    case Some(cs) =>
      && |cs| > 0
      && cs[0].content.Some?
      && match cs[0].content.value.parts
         case None => true
         case Some(parts) => forall i :: 0 <= i < |parts| ==> parts[i].inlineData.None?
  }

  /** A readable answer without any image part is reported with the model's text, or a stock text. */
  lemma NoImagePartReportsText(req: EditRequest, service: Service, resp: GenerateResponse)
    requires service(WireFor(req)) == Answered(resp)
    requires ReadableWithoutImage(resp)
    ensures EditImage(req, service) == EditResponse("", Some(NoImageMessage(resp.text)))
    ensures Truthy(OrElse(resp.text, "")) ==> EditImage(req, service).error == Some("Model returned: " + resp.text.value)
    ensures !Truthy(OrElse(resp.text, "")) ==> EditImage(req, service).error == Some("Model returned: No image generated")
  {
    assert ModelReturnedPrefix + NoImageText == "Model returned: No image generated";
  }

  /** A failed call comes back as its message, or the stock message when that is empty. */
  lemma FailureKeepsMessage(req: EditRequest, service: Service, m: string)
    requires service(WireFor(req)) == Failed(m)
    ensures Truthy(m) ==> EditImage(req, service) == EditResponse("", Some(m))
    ensures !Truthy(m) ==> EditImage(req, service) == EditResponse("", Some(DefaultError))
  {
  }

  /** A response with no candidate, or a first candidate without content, is a caught TypeError. */
  lemma MalformedAnswerIsError(req: EditRequest, service: Service, resp: GenerateResponse)
    requires service(WireFor(req)) == Answered(resp)
    requires resp.candidates.Some? && (|resp.candidates.value| == 0 || resp.candidates.value[0].content.None?)
    ensures EditImage(req, service).imageUrl == ""
    ensures EditImage(req, service).error == Some(ContentOfUndefined) || EditImage(req, service).error == Some(PartsOfUndefined)
  {
  }

  /**
   An image produced by one edit, fed back as the next request, sends exactly
   the part's base64 data -- provided neither the MIME type nor the data holds a comma.
   */
  lemma EditedImageFeedsNextPayload(
    req: EditRequest, service: Service, resp: GenerateResponse,
    parts: seq<Part>, i: int, prompt: string, mime: string)
    requires service(WireFor(req)) == Answered(resp) && HasParts(resp, parts)
    requires 0 <= i < |parts| && NoneBefore(parts, i)
    requires parts[i].inlineData.Some? && parts[i].inlineData.value.mimeType.Some? && parts[i].inlineData.value.data.Some?
    requires ',' !in parts[i].inlineData.value.mimeType.value && ',' !in parts[i].inlineData.value.data.value
    ensures WireFor(EditRequest(EditImage(req, service).imageUrl, prompt, mime)).data == parts[i].inlineData.value.data
  {
    var b := parts[i].inlineData.value;
    SuccessFromFirstImagePart(req, service, resp, parts, i);
    DataUrlRoundTrip(b.mimeType.value, b.data.value);
  }
}
