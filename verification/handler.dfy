/**
 The `/api/download` request handler: read the URL from the JSON body, strip
 it, check it names a YouTube host, derive a job id and downloader options,
 run the downloader's two phases, and turn the outcome into a status code and
 a JSON payload. The downloader is replaced by the outcomes its two phases
 would have for this request; the handler also reports which calls it made.
 */
module DownloadHandler {
  import opened Text
  import opened Jobs
  import opened JsonValues

  /** The body as `request.get_json()` delivers it: either the call raised
      (malformed JSON, wrong content type) with message `message`, or it
      produced a decoded value. */
  datatype Body = Unreadable(message: string) | Parsed(data: Json)

  /** An exception escaping the body of the handler's `try`: the downloader's
      `DownloadError`, or any other `Exception`; `message` is `str(e)`. */
  datatype Failure = DownloadError(message: string) | OtherError(message: string)

  datatype Outcome<+T> = Returned(value: T) | Raised(failure: Failure)

  /** How the downloader behaves on this request. Metadata extraction
      (`extract_info(url, download=False)`) returns the info value or raises;
      retrieval (`download([url])`) returns a status code, which the handler
      ignores, or raises. */
  datatype Downloader = Downloader(extractInfo: Outcome<Json>, download: Outcome<int>)

  /** A call the handler makes on the downloader. */
  datatype Call =
    | ExtractInfo(url: string, options: Options, download: bool)
    | Download(urls: seq<string>, options: Options)

  datatype Response = Response(status: int, payload: Json)

  /** The response, and the downloader calls made to reach it, in order. */
  datatype Handled = Handled(response: Response, calls: seq<Call>)

  datatype ValidationError = EmptyInput | UnsupportedSource

  datatype Validation = Valid(url: string) | Invalid(error: ValidationError)

  const YoutubeHost := "youtube.com"
  const ShortHost := "youtu.be"
  const UnknownTitle := "Unknown Video"
  const UrlRequired := "URL is required"
  const InvalidUrl := "Invalid YouTube URL"
  const DownloadErrorPrefix := "Download error: "
  const ServerErrorPrefix := "Server error: "

  /** `data.get('url', '').strip()`: a non-dict body has no `get`, and a
      non-string `url` member has no `strip`; both raise `AttributeError`. */
  function ReadUrl(body: Body): (r: Outcome<string>)
    ensures r.Raised? ==> r.failure.OtherError?
    ensures body.Unreadable? ==> r == Raised(OtherError(body.message))
    ensures body.Parsed? && !body.data.JObject? ==>
              r == Raised(OtherError(AttributeErrorMessage(body.data, "get")))
    ensures body.Parsed? && body.data.JObject? && "url" !in body.data.fields ==> r == Returned("")
    ensures body.Parsed? && body.data.JObject? && "url" in body.data.fields ==>
              var v := body.data.fields["url"];
              if v.JString? then r.Returned? && StripsTo(v.s, r.value)
              else r == Raised(OtherError(AttributeErrorMessage(v, "strip")))
  {
    match body
    case Unreadable(m) => Raised(OtherError(m))
    case Parsed(data) =>
      if !data.JObject? then Raised(OtherError(AttributeErrorMessage(data, "get")))
      else
        var v := if "url" in data.fields then data.fields["url"] else JString("");
        if v.JString? then Returned(Strip(v.s))
        else Raised(OtherError(AttributeErrorMessage(v, "strip")))
  }

  /** The two input checks: the URL must be non-empty, and it must contain one
      of the two YouTube host names somewhere, as a case-sensitive substring. */
  function Validate(url: string): (v: Validation)
    ensures v == Invalid(EmptyInput) <==> url == ""
    ensures v == Invalid(UnsupportedSource) <==>
              url != "" && !Occurs(url, YoutubeHost) && !Occurs(url, ShortHost)
    ensures v.Valid? ==> v.url == url
  {
    if url == "" then Invalid(EmptyInput)
    else if !Contains(url, YoutubeHost) && !Contains(url, ShortHost) then Invalid(UnsupportedSource)
    else Valid(url)
  }

  function ValidationMessage(e: ValidationError): string {
    match e
    case EmptyInput => UrlRequired
    case UnsupportedSource => InvalidUrl
  }

  /** A rejected input is answered 400 with its message under `error`. */
  function RejectionResponse(e: ValidationError): Response {
    Response(400, Single("error", JString(ValidationMessage(e))))
  }

  /** The two `except` clauses: `DownloadError` first, then any other
      exception; the exception's message follows a fixed prefix. */
  function FailureResponse(f: Failure): (r: Response)
    ensures r.status == 400 <==> f.DownloadError?
    ensures r.status == 500 <==> f.OtherError?
    ensures r.payload.JObject? && r.payload.fields.Keys == {"error"}
    ensures r.payload.fields["error"] ==
              JString((if f.DownloadError? then DownloadErrorPrefix else ServerErrorPrefix) + f.message)
  {
    match f
    case DownloadError(m) => Response(400, Single("error", JString(DownloadErrorPrefix + m)))
    case OtherError(m) => Response(500, Single("error", JString(ServerErrorPrefix + m)))
  }

  /** `info_dict.get('title', 'Unknown Video')`; an info value that is not a
      dict has no `get`. */
  function TitleOf(info: Json): (r: Outcome<Json>)
    ensures r.Returned? <==> info.JObject?
    ensures r.Returned? && "title" in info.fields ==> r.value == info.fields["title"]
    ensures r.Returned? && "title" !in info.fields ==> r.value == JString(UnknownTitle)
    ensures r.Raised? ==> r.failure == OtherError(AttributeErrorMessage(info, "get"))
  {
    match info
    case JObject(fields) =>
      Returned(if "title" in fields then fields["title"] else JString(UnknownTitle))
    case _ => Raised(OtherError(AttributeErrorMessage(info, "get")))
  }

  function SuccessPayload(title: Json, id: string): Json {
    JObject(map["status" := JString("success"), "title" := title, "id" := JString(id)])
  }

  /** `download_video`, given the body, the hex digits `uuid.uuid4()` would
      produce, and the downloader's behaviour. */
  function Handle(body: Body, uuidHex: string, d: Downloader): (h: Handled)
    requires IsUuidHex(uuidHex)
    ensures h.response.status in {200, 400, 500}
    ensures h.response.payload.JObject?
    ensures |h.calls| <= 2
    ensures h.response.status == 200 <==> |h.calls| == 2 && d.download.Returned?
    ensures "error" in h.response.payload.fields <==> h.response.status != 200
  {
    match ReadUrl(body)
    case Raised(f) => Handled(FailureResponse(f), [])
    case Returned(url) =>
      match Validate(url)
      case Invalid(e) => Handled(RejectionResponse(e), [])
      case Valid(u) =>
        var id := JobId(uuidHex);
        var options := OptionsFor(id);
        var extract := ExtractInfo(u, options, false);
        match d.extractInfo
        case Raised(f) => Handled(FailureResponse(f), [extract])
        case Returned(info) =>
          match TitleOf(info)
          case Raised(f) => Handled(FailureResponse(f), [extract])
          case Returned(title) =>
            var calls := [extract, Download([u], options)];
            match d.download
            case Raised(f) => Handled(FailureResponse(f), calls)
            case Returned(_) => Handled(Response(200, SuccessPayload(title, id)), calls)
  }

  /** The `/health` endpoint: always 200 with `{"status": "healthy"}`. */
  function Health(): (r: Response)
    ensures r.status == 200
    ensures r.payload == Single("status", JString("healthy"))
  {
    Response(200, Single("status", JString("healthy")))
  }
}
