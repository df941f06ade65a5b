/**
 Job identifiers and the downloader configuration derived from them: the id is
 the first twelve hex digits of a random UUID, and it names the output file.
 */
module Jobs {
  import opened Wrappers

  predicate IsLowerHex(c: char) {
    '0' <= c <= '9' || 'a' <= c <= 'f'
  }

  predicate IsLowerHexString(s: string) {
    forall i :: 0 <= i < |s| ==> IsLowerHex(s[i])
  }

  /** What `uuid.uuid4().hex` yields: 32 lowercase hexadecimal digits. The
      random source itself is not modelled; the digits are an input. */
  predicate IsUuidHex(h: string) {
    |h| == 32 && IsLowerHexString(h)
  }

  const JobIdLength: nat := 12

  /** Directory and name prefix of every output file. */
  const OutputPrefix := "/tmp/yt_"

  /** The downloader's placeholder for the extension it resolves. */
  const ExtensionField := ".%(ext)s"

  /** Format selector: the best single file at most 720 pixels high. */
  const MaxHeightFormat := "best[height<=720]"

  /** The configuration handed to the downloader for one job. */
  datatype Options = Options(format: string, outtmpl: string, quiet: bool, noWarnings: bool)

  /** `uuid.uuid4().hex[:12]`. */
  function JobId(uuidHex: string): (id: string)
    requires IsUuidHex(uuidHex)
    ensures |id| == JobIdLength
    ensures IsLowerHexString(id)
    ensures id <= uuidHex
  {
    uuidHex[..JobIdLength]
  }

  /** The output template `/tmp/yt_<id>.%(ext)s`. */
  function OutTemplate(id: string): (t: string)
    ensures |t| == |OutputPrefix| + |id| + |ExtensionField|
    ensures OutputPrefix <= t
  {
    OutputPrefix + id + ExtensionField
  }

  /** Reads the job id back out of an output template; `None` for a string
      that does not have the template's shape. */
  function TemplateJobId(t: string): (r: Option<string>)
    ensures r.Some? ==> |r.value| + |OutputPrefix| + |ExtensionField| == |t|
  {
    var lo, hi := |OutputPrefix|, |ExtensionField|;
    if lo + hi <= |t| && t[..lo] == OutputPrefix && t[|t| - hi..] == ExtensionField then
      Some(t[lo..|t| - hi])
    else
      None
  }

  /** Reading the id back from a template gives the id it was built from. */
  lemma TemplateRoundTrip(id: string)
    ensures TemplateJobId(OutTemplate(id)) == Some(id)
  {
    var t := OutTemplate(id);
    assert t[..|OutputPrefix|] == OutputPrefix;
    assert t[|t| - |ExtensionField|..] == ExtensionField;
    assert t[|OutputPrefix|..|t| - |ExtensionField|] == id;
  }

  /** Distinct ids give distinct templates: the template is bound 1:1 to its id. */
  lemma OutTemplateInjective(a: string, b: string)
    ensures OutTemplate(a) == OutTemplate(b) <==> a == b
  {
    TemplateRoundTrip(a);
    TemplateRoundTrip(b);
  }

  /** The path the downloader writes once it fills the `%(ext)s` field with
      the resolved extension `ext`. */
  function ArtifactPath(id: string, ext: string): (p: string)
    ensures |p| == |OutputPrefix| + |id| + 1 + |ext|
    ensures OutputPrefix <= p
  {
    OutputPrefix + id + "." + ext
  }

  /** The template is the artifact path with the extension still a placeholder. */
  lemma TemplateIsUnfilledArtifactPath(id: string)
    ensures OutTemplate(id) == ArtifactPath(id, "%(ext)s")
  {
  }

  /** Two jobs with different ids never write to the same path, whatever
      extensions the downloader resolves for them. */
  lemma {:induction false} DistinctJobsDistinctArtifacts(a: string, ea: string, b: string, eb: string)
    requires |a| == JobIdLength && |b| == JobIdLength
    requires a != b
    ensures ArtifactPath(a, ea) != ArtifactPath(b, eb)
  {
    var lo := |OutputPrefix|;
    assert ArtifactPath(a, ea)[lo..lo + JobIdLength] == a;
    assert ArtifactPath(b, eb)[lo..lo + JobIdLength] == b;
  }

  /** The downloader configuration the handler builds for job `id`. */
  function OptionsFor(id: string): (o: Options)
    ensures TemplateJobId(o.outtmpl) == Some(id)
    ensures o.format == MaxHeightFormat
    ensures o.quiet && o.noWarnings
  {
    TemplateRoundTrip(id);
    Options(MaxHeightFormat, OutTemplate(id), true, true)
  }
}
