/**
 What the download handler promises, stated over all bodies, job ids and
 downloader behaviours: which inputs are rejected and with what message,
 when the downloader is called and with what, and how each outcome of the
 two downloader phases becomes a status code and a payload.
 */
module HandlerProperties {
  import opened Wrappers
  import opened Text
  import opened Jobs
  import opened JsonValues
  import opened DownloadHandler

  /** The raw `url` string a body supplies: the member's string value, or the
      empty string when the member is absent; `None` when the body is not a
      dict or the member is not a string. */
  ghost function SuppliedUrl(body: Body): Option<string> {
    if body.Parsed? && body.data.JObject? then
      var fields := body.data.fields;
      if "url" !in fields then Some("")
      else if fields["url"].JString? then Some(fields["url"].s)
      else None
    else None
  }

  /** The body supplies a URL string naming one of the two hosts. */
  ghost predicate Accepted(body: Body) {
    SuppliedUrl(body).Some? &&
    (Occurs(SuppliedUrl(body).value, YoutubeHost) || Occurs(SuppliedUrl(body).value, ShortHost))
  }

  /** The title a success reports: the info's `title` member, or the default. */
  ghost function ReportedTitle(fields: map<string, Json>): Json {
    if "title" in fields then fields["title"] else JString(UnknownTitle)
  }

  /** Both downloader phases return, and metadata extraction yields a dict. */
  ghost predicate PhasesSucceed(d: Downloader) {
    d.extractInfo.Returned? && d.extractInfo.value.JObject? && d.download.Returned?
  }

  /** Reading the body yields exactly the stripped supplied URL, and raises
      exactly when no URL string is supplied. */
  lemma ReadUrlMatchesSupplied(body: Body)
    ensures ReadUrl(body).Returned? <==> SuppliedUrl(body).Some?
    ensures ReadUrl(body).Returned? ==> ReadUrl(body).value == Strip(SuppliedUrl(body).value)
  {
    if body.Parsed? && body.data.JObject? && "url" in body.data.fields && body.data.fields["url"].JString? {
      StripMeetsReference(body.data.fields["url"].s, ReadUrl(body).value);
    }
  }

  lemma HostsHaveNoSpace()
    ensures NoSpaceIn(YoutubeHost) && NoSpaceIn(ShortHost)
  {
  }

  /** Whether the stripped URL passes validation, stated on the raw URL. */
  lemma ValidateSupplied(raw: string)
    ensures Validate(Strip(raw)) == Invalid(EmptyInput) <==> AllSpace(raw)
    ensures Validate(Strip(raw)).Valid? <==> Occurs(raw, YoutubeHost) || Occurs(raw, ShortHost)
  {
    HostsHaveNoSpace();
    OccursStripped(raw, YoutubeHost);
    OccursStripped(raw, ShortHost);
    if Strip(raw) == "" {
      assert !OccursAt("", YoutubeHost, 0) && !OccursAt("", ShortHost, 0);
    }
  }

  /** A validation rejection never looks like an exception's response. */
  lemma RejectionIsNotFailure(e: ValidationError, f: Failure)
    ensures RejectionResponse(e) != FailureResponse(f)
  {
    var m := ValidationMessage(e);
    var r := FailureResponse(f);
    if f.DownloadError? {
      var n := DownloadErrorPrefix + f.message;
      assert JString(m) != JString(n) by {
        if e == EmptyInput {
          assert |m| < |n|;
        } else {
          assert m[0] != n[0];
        }
      }
      assert r.payload.fields["error"] == JString(n);
    }
  }

  /** The exception's message comes through verbatim and its kind is
      recoverable from the response: distinct exceptions give distinct responses. */
  lemma FailureResponseInjective(f: Failure, g: Failure)
    ensures FailureResponse(f) == FailureResponse(g) <==> f == g
  {
    if FailureResponse(f) == FailureResponse(g) {
      var p := if f.DownloadError? then DownloadErrorPrefix else ServerErrorPrefix;
      assert FailureResponse(f).payload.fields["error"] == JString(p + f.message);
      assert FailureResponse(g).payload.fields["error"] == JString(p + g.message);
      assert (p + f.message)[|p|..] == f.message;
      assert (p + g.message)[|p|..] == g.message;
    }
  }

  /** A missing or whitespace-only URL is answered 400 "URL is required", and
      only such a URL is; the downloader is then never called. */
  lemma UrlRequiredExactly(body: Body, uuidHex: string, d: Downloader)
    requires IsUuidHex(uuidHex)
    ensures var h := Handle(body, uuidHex, d);
            (h.response == RejectionResponse(EmptyInput) <==>
               SuppliedUrl(body).Some? && AllSpace(SuppliedUrl(body).value))
            && (h.response == RejectionResponse(EmptyInput) ==> h.calls == [])
  {
    ReadUrlMatchesSupplied(body);
    if SuppliedUrl(body).Some? {
      ValidateSupplied(SuppliedUrl(body).value);
    }
    forall f: Failure { RejectionIsNotFailure(EmptyInput, f); }
  }

  /** A URL naming neither host is answered 400 "Invalid YouTube URL", and only
      such a URL is; the downloader is then never called. */
  lemma InvalidUrlExactly(body: Body, uuidHex: string, d: Downloader)
    requires IsUuidHex(uuidHex)
    ensures var h := Handle(body, uuidHex, d);
            (h.response == RejectionResponse(UnsupportedSource) <==>
               SuppliedUrl(body).Some? && !AllSpace(SuppliedUrl(body).value) && !Accepted(body))
            && (h.response == RejectionResponse(UnsupportedSource) ==> h.calls == [])
  {
    ReadUrlMatchesSupplied(body);
    if SuppliedUrl(body).Some? {
      ValidateSupplied(SuppliedUrl(body).value);
    }
    forall f: Failure { RejectionIsNotFailure(UnsupportedSource, f); }
  }

  /** The downloader is called exactly for accepted URLs. */
  lemma DownloaderCalledExactly(body: Body, uuidHex: string, d: Downloader)
    requires IsUuidHex(uuidHex)
    ensures |Handle(body, uuidHex, d).calls| > 0 <==> Accepted(body)
  {
    ReadUrlMatchesSupplied(body);
    if SuppliedUrl(body).Some? {
      ValidateSupplied(SuppliedUrl(body).value);
    }
  }

  /** Metadata extraction without download is always the first call;
      retrieval comes second, and only once extraction returned a dict; both
      receive the stripped URL unmodified and the options built from the job id. */
  lemma DownloaderCallOrder(body: Body, uuidHex: string, d: Downloader)
    requires IsUuidHex(uuidHex)
    requires Accepted(body)
    ensures var h := Handle(body, uuidHex, d);
            var u := Strip(SuppliedUrl(body).value);
            var options := OptionsFor(JobId(uuidHex));
            && h.calls <= [ExtractInfo(u, options, false), Download([u], options)]
            && |h.calls| > 0
            && h.calls[0] == ExtractInfo(u, options, false)
            && (|h.calls| == 2 ==> d.extractInfo.Returned? && d.extractInfo.value.JObject?)
            && (d.extractInfo.Returned? && d.extractInfo.value.JObject? ==> |h.calls| == 2)
  {
    ReadUrlMatchesSupplied(body);
    ValidateSupplied(SuppliedUrl(body).value);
  }

  /** The handler answers 200 exactly when the URL is accepted and both
      downloader phases return; the payload then carries the title (or the
      default) and the twelve-digit job id. */
  lemma SuccessExactly(body: Body, uuidHex: string, d: Downloader)
    requires IsUuidHex(uuidHex)
    ensures var h := Handle(body, uuidHex, d);
            && (h.response.status == 200 <==> Accepted(body) && PhasesSucceed(d))
            && (h.response.status == 200 ==>
                  h.response.payload ==
                    SuccessPayload(ReportedTitle(d.extractInfo.value.fields), JobId(uuidHex)))
  {
    ReadUrlMatchesSupplied(body);
    if SuppliedUrl(body).Some? {
      ValidateSupplied(SuppliedUrl(body).value);
    }
  }

  /** A `DownloadError(m)` from either phase is answered 400 with
      "Download error: " + m, and nothing else produces that response. */
  lemma DownloadErrorExactly(body: Body, uuidHex: string, d: Downloader, m: string)
    requires IsUuidHex(uuidHex)
    ensures Handle(body, uuidHex, d).response == FailureResponse(DownloadError(m)) <==>
              Accepted(body) &&
              (|| d.extractInfo == Raised(DownloadError(m))
               || (d.extractInfo.Returned? && d.extractInfo.value.JObject? &&
                   d.download == Raised(DownloadError(m))))
  {
    ReadUrlMatchesSupplied(body);
    if SuppliedUrl(body).Some? {
      ValidateSupplied(SuppliedUrl(body).value);
    }
    RejectionIsNotFailure(EmptyInput, DownloadError(m));
    RejectionIsNotFailure(UnsupportedSource, DownloadError(m));
    forall f: Failure { FailureResponseInjective(f, DownloadError(m)); }
  }

  /** The handler answers 500 exactly when some other exception escapes: the
      body cannot be read or has no URL string, the info is not a dict, or a
      downloader phase raises something other than `DownloadError`. */
  lemma ServerErrorStatus(body: Body, uuidHex: string, d: Downloader)
    requires IsUuidHex(uuidHex)
    ensures Handle(body, uuidHex, d).response.status == 500 <==>
              || SuppliedUrl(body).None?
              || (Accepted(body) &&
                  (|| (d.extractInfo.Raised? && d.extractInfo.failure.OtherError?)
                   || (d.extractInfo.Returned? && !d.extractInfo.value.JObject?)
                   || (d.extractInfo.Returned? && d.download.Raised? && d.download.failure.OtherError?)))
  {
    ReadUrlMatchesSupplied(body);
    if SuppliedUrl(body).Some? {
      ValidateSupplied(SuppliedUrl(body).value);
    }
  }

  /** The 500 answer is "Server error: " + m, where m is the message of the
      exception that escaped: the body parser's, the `AttributeError` of a
      non-dict body, a non-string `url` or a non-dict info, or the one a
      downloader phase raised. Nothing else produces that response. */
  lemma ServerErrorExactly(body: Body, uuidHex: string, d: Downloader, m: string)
    requires IsUuidHex(uuidHex)
    ensures Handle(body, uuidHex, d).response == FailureResponse(OtherError(m)) <==>
              || body == Unreadable(m)
              || (body.Parsed? && !body.data.JObject? && m == AttributeErrorMessage(body.data, "get"))
              || (&& body.Parsed? && body.data.JObject? && "url" in body.data.fields
                  && !body.data.fields["url"].JString?
                  && m == AttributeErrorMessage(body.data.fields["url"], "strip"))
              || (Accepted(body) &&
                  (|| d.extractInfo == Raised(OtherError(m))
                   || (d.extractInfo.Returned? && !d.extractInfo.value.JObject? &&
                       m == AttributeErrorMessage(d.extractInfo.value, "get"))
                   || (d.extractInfo.Returned? && d.extractInfo.value.JObject? &&
                       d.download == Raised(OtherError(m)))))
  {
    ReadUrlMatchesSupplied(body);
    if SuppliedUrl(body).Some? {
      ValidateSupplied(SuppliedUrl(body).value);
    }
    forall f: Failure { FailureResponseInjective(f, OtherError(m)); }
  }

  /** The host check is a plain substring test, not a parse of the URL's
      host: a host name anywhere in the string, in a query for instance, is
      accepted whatever surrounds it. */
  lemma HostAnywhereAccepted(p: string, q: string)
    ensures Validate(p + YoutubeHost + q).Valid?
    ensures Validate(p + ShortHost + q).Valid?
  {
    assert Contains(YoutubeHost, YoutubeHost) && Contains(ShortHost, ShortHost);
    ContainsAnywhere(p, YoutubeHost, q, YoutubeHost);
    ContainsAnywhere(p, ShortHost, q, ShortHost);
  }

  /** The check is case-sensitive: a host name in capitals is rejected. */
  lemma CapitalHostRejected()
    ensures Validate("https://www.YouTube.com/watch?v=x") == Invalid(UnsupportedSource)
  {
    var s := "https://www.YouTube.com/watch?v=x";
    assert 'y' !in s;
    FirstCharAbsent(s, YoutubeHost);
    FirstCharAbsent(s, ShortHost);
  }

  /** A needle whose first character never appears in `s` does not occur in it. */
  lemma FirstCharAbsent(s: string, needle: string)
    requires |needle| > 0 && needle[0] !in s
    ensures !Occurs(s, needle)
  {
    forall i | 0 <= i && i + |needle| <= |s|
      ensures !OccursAt(s, needle, i)
    {
      assert s[i] in s && s[i..i + |needle|][0] == s[i];
    }
  }
}
