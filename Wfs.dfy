/** Paginated retrieval of WFS features (`fetch_features`, main.py:21-44).

    The remote endpoint is an abstract page oracle: a total function from the
    URL and the query parameters of one GET to the decoded JSON response.
    The network, HTTP and JSON decoding are not part of this model. */
module Wfs {
  import opened Wrappers
  import TypeName

  /** Features requested per page (main.py:24). */
  const PageSize: nat := 1000

  /** The query parameters of one GetFeature request (main.py:27-35). */
  datatype Request = Request(
    service: string,
    version: string,
    request: string,
    typeName: string,
    outputFormat: string,
    startIndex: nat,
    count: nat)

  /** A decoded response body; `features` is `None` when the key is missing. */
  datatype Response<F> = Response(features: Option<seq<F>>)

  /** The remote endpoint: what a GET of `url` with the given parameters returns. */
  type Server<!F> = (string, Request) -> Response<F>

  /** `data.get("features", [])` (main.py:38): a missing key reads as an empty page. */
  function PageOf<F>(response: Response<F>): (page: seq<F>)
    ensures response.features.None? ==> page == []
    ensures response.features.Some? ==> page == response.features.value
  {
    response.features.GetOr([])
  }

  /** The parameters of the request for the page starting at `startIndex`. */
  function RequestFor(url: string, startIndex: nat): Request {
    Request("wfs", "2.0.0", "GetFeature", TypeName.TypeNameOf(url), "json", startIndex, PageSize)
  }

  /** The `k`-th request the loop issues (counting from 0). */
  function RequestAt(url: string, k: nat): (req: Request)
    ensures req.startIndex == k * PageSize && req.count == PageSize
    ensures req.typeName == TypeName.TypeNameOf(url)
  {
    RequestFor(url, k * PageSize)
  }

  /** The page the server answers to the `k`-th request. */
  function PageAt<F>(server: Server<F>, url: string, k: nat): seq<F> {
    PageOf(server(url, RequestAt(url, k)))
  }

  /** The in-order concatenation of the first `k` pages. */
  function Accumulated<F>(server: Server<F>, url: string, k: nat): seq<F> {
    if k == 0 then [] else Accumulated(server, url, k - 1) + PageAt(server, url, k - 1)
  }

  /** Page `n` is the first short page: the loop stops right after it. */
  ghost predicate StopsAt<F>(server: Server<F>, url: string, n: nat) {
    && |PageAt(server, url, n)| < PageSize
    && forall j: nat :: j < n ==> |PageAt(server, url, j)| >= PageSize
  }

  /** At most one page is the first short one, so the outcome of a fetch is
      determined by the server and the URL. */
  lemma StopsAtUnique<F>(server: Server<F>, url: string, n: nat, m: nat)
    requires StopsAt(server, url, n) && StopsAt(server, url, m)
    ensures n == m
  {
  }

  /** A response without a `features` key ends the fetch without error, after
      the full pages before it, and adds nothing (main.py:38, main.py:40). */
  lemma MissingFeaturesEndsFetch<F>(server: Server<F>, url: string, n: nat)
    requires server(url, RequestAt(url, n)).features.None?
    requires forall j: nat :: j < n ==> |PageAt(server, url, j)| >= PageSize
    ensures StopsAt(server, url, n)
    ensures Accumulated(server, url, n + 1) == Accumulated(server, url, n)
  {
  }

  /** `fetch_features` (main.py:21-44): request pages of `PageSize` features at
      offsets 0, 1000, 2000, ... and append each page in arrival order, until
      the first page holding fewer than `PageSize` features.

      `sent` is the log of the requests issued, in order. The ghost `last`
      names some page the server answers short; without one the source loops
      forever, which this model does not capture. */
  method FetchFeatures<F>(url: string, server: Server<F>, ghost last: nat)
    returns (features: seq<F>, sent: seq<Request>)
    requires |PageAt(server, url, last)| < PageSize
    ensures |sent| > 0
    ensures forall k :: 0 <= k < |sent| ==> sent[k] == RequestAt(url, k)
    ensures StopsAt(server, url, |sent| - 1)
    ensures features == Accumulated(server, url, |sent|)
  {
    features := [];
    sent := [];
    var startIndex := 0;
    var pageSize := PageSize;
    while true
      invariant startIndex == |sent| * PageSize && pageSize == PageSize
      invariant |sent| <= last
      invariant forall k :: 0 <= k < |sent| ==> sent[k] == RequestAt(url, k)
      invariant forall j: nat :: j < |sent| ==> |PageAt(server, url, j)| >= PageSize
      invariant features == Accumulated(server, url, |sent|)
      decreases last - |sent|
    {
      var params := RequestFor(url, startIndex);
      var response := server(url, params);
      sent := sent + [params];
      var page := PageOf(response);
      features := features + page;
      if |page| < pageSize {
        return;
      }
      startIndex := startIndex + pageSize;
    }
  }
}
