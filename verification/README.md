# Download request handler — Dafny model

This project models the `/api/download` endpoint of a small Flask service
that fetches YouTube videos with `yt_dlp` (`download_video` in `main.py`),
together with the `/health` endpoint. The handler reads a JSON body, strips
the `url` member, rejects an empty URL and a URL that contains neither
`youtube.com` nor `youtu.be`, takes the first twelve hex digits of a random
UUID as the job id, builds the downloader options (format
`best[height<=720]`, output template `/tmp/yt_<id>.%(ext)s`, quiet, no
warnings), runs the downloader in two phases (metadata extraction without
download, then retrieval) and maps the outcome to a status and a JSON
payload: 200 with status, title and id; 400 for rejected input and for the
downloader's `DownloadError`; 500 for any other exception.

The model is pure. `DownloadHandler.Handle` takes the request body (either
the exception `request.get_json()` raised, or the decoded JSON value), the 32
hex digits `uuid.uuid4().hex` would have produced, and the outcome of each
downloader phase (returned a value, raised `DownloadError(m)`, or raised some
other exception with message `m`). It returns the response and the list of
downloader calls made, so that "the downloader is never called" and "retrieval
comes after extraction" can be stated.

Files:

- `text.dfy` (`Text`): Python's `str.strip()` and the substring test behind
  `in`, each proved equal to a reference definition.
- `jobs.dfy` (`Jobs`): job id, output template and downloader options.
- `json.dfy` (`JsonValues`): decoded JSON values and the Python type names
  that appear in `AttributeError` messages.
- `handler.dfy` (`DownloadHandler`): reading the URL, validation, the
  exception-to-response mapping, the handler itself and `/health`.
- `properties.dfy` (`HandlerProperties`): all-inputs lemmas about the handler.
- `wrappers.dfy` (`Wrappers`): an `Option` type.

The model follows the code where its behaviour may surprise: a body that is
not a JSON object, or a `url` member that is not a string, is a client defect,
yet the code answers it 500 ("Server error: 'int' object has no attribute
'strip'" and the like), because the `AttributeError` reaches the generic
`except Exception` clause. Of the extraction result the code uses only the
title; nothing else from it reaches the response.

## Model

| member | source | states |
|---|---|---|
| Text.Strip | main.py:187 | the result is the input with whitespace-only borders removed and no whitespace at either end; it is empty exactly when the input is all whitespace |
| Text.StripMeetsReference | main.py:187 | `Strip` returns the one string that meets the reference definition of `str.strip()`, and no other string meets it |
| Text.StripIdempotent | main.py:187 | stripping an already stripped URL changes nothing |
| Text.StripIgnoresPadding | main.py:187 | whitespace added before or after a URL does not change what the handler reads |
| Text.Contains | main.py:193 | `needle in hay` is true exactly when the needle occurs at some offset of the string, case-sensitively |
| Text.ContainsAnywhere | main.py:193 | a string containing the needle still does after anything is added on either side |
| Jobs.JobId | main.py:197 | the job id is exactly twelve lowercase hex digits and is a prefix of the UUID's hex form |
| Jobs.OutTemplate | main.py:202 | the template starts with `/tmp/yt_` and is the id plus a fixed 16 characters long |
| Jobs.TemplateJobId | main.py:202 | reading an id back from a template gives a string 16 characters shorter than the template |
| Jobs.TemplateRoundTrip | main.py:202 | the job id can be read back from the output template it built |
| Jobs.OutTemplateInjective | main.py:202 | two templates are equal exactly when their job ids are equal |
| Jobs.ArtifactPath | main.py:202 | the file name the template denotes once the downloader fills in the extension: `/tmp/yt_` + id + `.` + extension |
| Jobs.TemplateIsUnfilledArtifactPath | main.py:202 | the template handed to the downloader is that file name with the extension still the `%(ext)s` placeholder |
| Jobs.DistinctJobsDistinctArtifacts | main.py:197-202 | two different job ids never name the same output file, whatever extensions are resolved |
| Jobs.OptionsFor | main.py:200-205 | the options carry the 720p format limit, quiet and no-warnings modes, and a template from which the job id reads back |
| DownloadHandler.ReadUrl | main.py:186-187 | an unreadable body, a non-dict body and a non-string `url` raise a non-`DownloadError` exception with the Python message; a missing `url` reads as empty; a string `url` reads as its strip |
| DownloadHandler.Validate | main.py:190-194 | rejected as empty exactly when the URL is empty; rejected as unsupported exactly when it is non-empty and neither host occurs in it; otherwise accepted unchanged |
| DownloadHandler.FailureResponse | main.py:223-228 | `DownloadError(m)` gives 400 with `{"error": "Download error: " + m}`; any other exception gives 500 with `{"error": "Server error: " + m}`; `error` is the only key |
| DownloadHandler.TitleOf | main.py:211 | for a dict info, the title is its `title` member, or "Unknown Video" when absent; a non-dict info raises the `'<type>' object has no attribute 'get'` error |
| DownloadHandler.Handle | main.py:182-228 | every request yields one response with status 200, 400 or 500 and an object payload; at most two downloader calls; 200 exactly when both calls were made and retrieval returned; an `error` key exactly when the status is not 200 |
| DownloadHandler.Health | main.py:231-233 | the health check answers 200 with `{"status": "healthy"}` |
| HandlerProperties.ReadUrlMatchesSupplied | main.py:186-187 | reading succeeds exactly when the body supplies a URL string (or none), and yields its strip |
| Text.OccursStripped | main.py:187-193 | a host name occurs in the stripped URL exactly when it occurs in the raw one |
| HandlerProperties.ValidateSupplied | main.py:187-194 | a raw URL is rejected as empty exactly when it is all whitespace and accepted exactly when a host name occurs in it |
| HandlerProperties.RejectionIsNotFailure | main.py:190-228 | a validation rejection is never the same response as an exception's |
| HandlerProperties.FailureResponseInjective | main.py:223-228 | the exception's kind and message can be recovered from the response: different exceptions give different responses |
| HandlerProperties.UrlRequiredExactly | main.py:186-191 | 400 "URL is required" exactly for a missing or whitespace-only URL, and then the downloader is not called |
| HandlerProperties.InvalidUrlExactly | main.py:186-194 | 400 "Invalid YouTube URL" exactly for a non-blank URL naming neither host, and then the downloader is not called |
| HandlerProperties.DownloaderCalledExactly | main.py:186-210 | the downloader is called exactly when the body supplies a URL string naming one of the two hosts |
| HandlerProperties.DownloaderCallOrder | main.py:197-214 | for an accepted URL, extraction without download comes first; retrieval comes second, is made exactly when extraction returned a dict; both get the stripped URL unmodified and the job's options |
| HandlerProperties.SuccessExactly | main.py:208-221 | 200 exactly when the URL is accepted and both phases return; the payload then holds the info's title (or "Unknown Video") and the job id |
| HandlerProperties.DownloadErrorExactly | main.py:208-225 | 400 "Download error: m" exactly when the URL is accepted and extraction, or retrieval after a successful extraction, raised `DownloadError(m)` |
| HandlerProperties.ServerErrorStatus | main.py:184-228 | 500 exactly when the body supplies no URL string, or for an accepted URL the info is not a dict or a phase raised another exception |
| HandlerProperties.ServerErrorExactly | main.py:184-228 | `{"error": "Server error: " + m}` with status 500 exactly when m is the escaping exception's message: the body parser's, the `AttributeError` text for a non-dict body, a non-string `url` or a non-dict info, or a downloader phase's non-`DownloadError` message |
| HandlerProperties.HostAnywhereAccepted | main.py:193 | a host name anywhere in the URL, whatever surrounds it, passes validation |
| HandlerProperties.CapitalHostRejected | main.py:193 | the host check is case-sensitive: `www.YouTube.com` is rejected |
| HandlerProperties.FirstCharAbsent | main.py:193 | a host whose first letter is absent from the URL does not occur in it |

## Left out

- Flask wiring: the app object, routing, `render_template_string`, the start-up messages and `app.run` (main.py:1-6, 178-180, 235-243). They are framework and I/O plumbing.
- The inline HTML page and its script (main.py:9-176). It is user interface; its client-side URL check repeats the server's.
- The internals of `yt_dlp`: constructing and closing `YoutubeDL`, format selection, the network, and writing the file under `/tmp` (only the file's name is modelled, as `Jobs.ArtifactPath`). Each downloader phase is an input outcome instead.
- The randomness of `uuid.uuid4()` and collision probability: the 32 hex digits are an input.
- `Main.py` (a static leak-search page) and the `route.ts` proxy: they pass requests to third-party APIs and have no logic of their own.
- Exceptions that are not `Exception` subclasses (for example `KeyboardInterrupt`) escape the handler in the source; the model has no such outcome.
- Strings are Unicode scalar values, so lone surrogates that Python's JSON decoder can produce are not represented.
- DownloadHandler.Health: its contract states the fixed response and nothing more, because the endpoint has no inputs.
