/** `check_single_archive`: the two-step reachability probe of one history
    archive. The HTTP client is replaced by `server`, a function from the
    request sent to the response that comes back. */
module Probe {
  import opened Text

  datatype HttpMethod = Head | Get

  datatype Request = Request(verb: HttpMethod, url: string)

  /** What a request yields: an HTTP status (its numeric code and the
      canonical reason phrase the HTTP library prints after it), or a
      transport-level failure (DNS, connect, timeout) with its description. */
  datatype Response = Status(code: nat, reason: string) | TransportError(detail: string)

  /** The crate's error variants that `check_single_archive` returns. */
  datatype ArchiveError =
    | ArchiveHealthCheckError(msg: string)
    | HttpError(detail: string)

  /** `Result<()>`: the archive is healthy, or the error it failed with. */
  datatype CheckResult = Ok | Err(error: ArchiveError)

  /** `StatusCode::is_success`: a status in 200..=299. */
  predicate IsSuccess(code: nat) {
    200 <= code <= 299
  }

  predicate Succeeded(resp: Response) {
    resp.Status? && IsSuccess(resp.code)
  }

  /** `trim_end_matches('/')`: drops every trailing '/', not only the last. */
  function TrimTrailingSlashes(s: string): (r: string)
    ensures r <= s
    ensures |r| == 0 || r[|r| - 1] != '/'
    ensures forall k :: |r| <= k < |s| ==> s[k] == '/'
  {
    if |s| > 0 && s[|s| - 1] == '/' then TrimTrailingSlashes(s[..|s| - 1]) else s
  }

  /** Trimming twice is trimming once. */
  lemma TrimIdempotent(s: string)
    ensures TrimTrailingSlashes(TrimTrailingSlashes(s)) == TrimTrailingSlashes(s)
  {
  }

  /** The trimmed URL is the only prefix that does not end in '/' and is
      followed by nothing but slashes: all of the trailing slashes go. */
  lemma {:induction false} TrimUnique(s: string, p: string)
    requires p <= s && (|p| == 0 || p[|p| - 1] != '/')
    requires forall k :: |p| <= k < |s| ==> s[k] == '/'
    ensures TrimTrailingSlashes(s) == p
  {
    if |s| > |p| {
      TrimUnique(s[..|s| - 1], p);
    } else {
      assert s == p;
    }
  }

  const MetadataPath := "/.well-known/stellar-history.json"

  /** The URL both probes are built on. */
  function BaseUrl(url: string): string {
    TrimTrailingSlashes(url)
  }

  function MetadataUrl(url: string): string {
    BaseUrl(url) + MetadataPath
  }

  /** The first probe: HEAD of the Stellar history metadata file. */
  function MetadataRequest(url: string): Request {
    Request(Head, MetadataUrl(url))
  }

  /** The fallback probe: HEAD of the archive root (the doc comment of the
      source speaks of a GET; the code sends a HEAD). */
  function RootRequest(url: string): Request {
    Request(Head, BaseUrl(url))
  }

  /** The requests the probe builds from `url`: both are HEAD requests;
      the metadata URL is the trimmed URL followed by the metadata path, and
      the root URL is the trimmed URL itself, which never ends in '/'. */
  lemma ProbeUrls(url: string)
    ensures MetadataRequest(url).verb == Head && RootRequest(url).verb == Head
    ensures MetadataRequest(url).url == RootRequest(url).url + MetadataPath
    ensures RootRequest(url).url <= url
    ensures |RootRequest(url).url| == 0 || RootRequest(url).url[|RootRequest(url).url| - 1] != '/'
    ensures BaseUrl(url + "/") == BaseUrl(url + "//") == BaseUrl(BaseUrl(url))
  {
    TrimIdempotent(url);
    assert (url + "/")[..|url|] == url;
    assert (url + "//")[..|url| + 1] == url + "/";
  }

  /** The text of `Error::ArchiveHealthCheckError` for a non-2xx root status:
      "Archive returned HTTP " and the status as the HTTP library displays
      it, "{code} {reason}". */
  function StatusMessage(code: nat, reason: string): string {
    "Archive returned HTTP " + NatToString(code) + " " + reason
  }

  /** The verdict of one probe from the metadata response and the root
      response. The root response only matters when the metadata step did
      not succeed. */
  function Decide(metadata: Response, root: Response): (r: CheckResult)
    ensures r.Ok? <==> Succeeded(metadata) || Succeeded(root)
    ensures r.Err? && r.error.ArchiveHealthCheckError? <==>
              !Succeeded(metadata) && root.Status? && !IsSuccess(root.code)
    ensures r.Err? && r.error.HttpError? <==> !Succeeded(metadata) && root.TransportError?
    ensures r.Err? && r.error.ArchiveHealthCheckError? ==>
              r.error.msg == StatusMessage(root.code, root.reason)
    ensures r.Err? && r.error.HttpError? ==> r.error.detail == root.detail
  {
    if Succeeded(metadata) then Ok
    else match root
      case Status(code, reason) =>
        if IsSuccess(code) then Ok else Err(ArchiveHealthCheckError(StatusMessage(code, reason)))
      case TransportError(detail) => Err(HttpError(detail))
  }

  /** A failed metadata step is never final: a non-2xx metadata status and
      a metadata transport error lead to the same verdict. */
  lemma FallbackIgnoresMetadataFailure(m1: Response, m2: Response, root: Response)
    requires !Succeeded(m1) && !Succeeded(m2)
    ensures Decide(m1, root) == Decide(m2, root)
  {
  }

  /** The error text for a non-2xx root status names the status code after
      "HTTP ", as in "Archive returned HTTP 500 Internal Server Error". */
  lemma StatusMessageNamesCode(code: nat, reason: string)
    ensures Contains(StatusMessage(code, reason), "HTTP " + NatToString(code))
  {
    var pre := "Archive returned ";
    assert StatusMessage(code, reason) == pre + ("HTTP " + NatToString(code)) + (" " + reason);
    ContainsMiddle(pre, "HTTP " + NatToString(code), " " + reason);
  }

  /** `check_single_archive(client, url, timeout)`: the verdict the probe
      reaches against `server`. */
  function CheckSingleArchive(url: string, server: Request -> Response): (r: CheckResult)
    ensures r.Ok? <==>
      Succeeded(server(Request(Head, MetadataUrl(url)))) || Succeeded(server(Request(Head, BaseUrl(url))))
  {
    Decide(server(MetadataRequest(url)), server(RootRequest(url)))
  }

  /** The requests the probe sends, in order: the metadata request, and the
      root request only when the metadata step did not succeed. */
  function RequestsSent(url: string, server: Request -> Response): (rs: seq<Request>)
    ensures 1 <= |rs| <= 2 && rs[0] == MetadataRequest(url)
    ensures |rs| == 2 <==> !Succeeded(server(MetadataRequest(url)))
    ensures |rs| == 2 ==> rs[1] == RootRequest(url)
    ensures forall i :: 0 <= i < |rs| ==> rs[i].verb == Head
  {
    if Succeeded(server(MetadataRequest(url))) then [MetadataRequest(url)]
    else [MetadataRequest(url), RootRequest(url)]
  }

  /** The verdict is that of the last request sent: healthy exactly when
      the last response was a 2xx status. */
  lemma VerdictFromLastRequest(url: string, server: Request -> Response)
    ensures var rs := RequestsSent(url, server);
      CheckSingleArchive(url, server).Ok? <==> Succeeded(server(rs[|rs| - 1]))
  {
  }

  /** Concrete cases from the source's tests: 200 on the metadata path;
      404 there and 200 at the root; 500 on both; and a transport failure,
      which gives an error distinct from the HTTP-status one. */
  lemma ProbeScenarios(r: string, d: string)
    ensures Decide(Status(200, r), Status(500, r)) == Ok
    ensures Decide(Status(404, r), Status(200, r)) == Ok
    ensures Decide(Status(500, r), Status(500, r)) == Err(ArchiveHealthCheckError(StatusMessage(500, r)))
    ensures Decide(TransportError(d), TransportError(d)) == Err(HttpError(d))
  {
  }
}
