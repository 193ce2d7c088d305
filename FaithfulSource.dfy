/** A well-behaved WFS endpoint: one that serves slices of a finite feature
    collection, honouring `startIndex` and `count`. Against it the pagination
    loop of main.py:21-44 provably returns the whole collection. */
module FaithfulSource {
  import opened Wrappers
  import opened Wfs

  function Min(a: nat, b: nat): nat {
    if a <= b then a else b
  }

  /** The `count` features from `start` on, cut short at the end of `backing`. */
  function Slice<F>(backing: seq<F>, start: nat, count: nat): (page: seq<F>)
    ensures |page| == if start >= |backing| then 0 else Min(count, |backing| - start)
  {
    if start >= |backing| then [] else backing[start..Min(start + count, |backing|)]
  }

  /** The endpoint that answers every request with a slice of `backing`. */
  function Faithful<F>(backing: seq<F>): Server<F> {
    (url: string, req: Request) => Response(Some(Slice(backing, req.startIndex, req.count)))
  }

  /** Page `k` of a faithful source is the `k`-th block of `PageSize` features. */
  lemma FaithfulPage<F>(backing: seq<F>, url: string, k: nat)
    ensures PageAt(Faithful(backing), url, k) == Slice(backing, k * PageSize, PageSize)
  {
  }

  /** While the pages are full, the features gathered so far are a prefix of `backing`. */
  lemma {:induction false} FaithfulPrefix<F>(backing: seq<F>, url: string, k: nat)
    requires k * PageSize <= |backing|
    ensures Accumulated(Faithful(backing), url, k) == backing[..k * PageSize]
  {
    if k > 0 {
      FaithfulPrefix(backing, url, k - 1);
      FaithfulPage(backing, url, k - 1);
      var lo := (k - 1) * PageSize;
      assert backing[..k * PageSize] == backing[..lo] + backing[lo..k * PageSize];
    }
  }

  /** A faithful source of `n` features answers short first at page `n / PageSize`. */
  lemma FaithfulStops<F>(backing: seq<F>, url: string)
    ensures StopsAt(Faithful(backing), url, |backing| / PageSize)
  {
    var n := |backing| / PageSize;
    FaithfulPage(backing, url, n);
    forall j: nat | j < n ensures |PageAt(Faithful(backing), url, j)| >= PageSize {
      FaithfulPage(backing, url, j);
    }
  }

  /** What the loop gathers from a faithful source is the whole collection, in order. */
  lemma FaithfulFetchIsWhole<F>(backing: seq<F>, url: string)
    ensures Accumulated(Faithful(backing), url, |backing| / PageSize + 1) == backing
  {
    var n := |backing| / PageSize;
    FaithfulPrefix(backing, url, n);
    FaithfulPage(backing, url, n);
  }

  /** Whatever page a fetch from a faithful source stops at, it stops after
      `n / PageSize + 1` requests holding exactly the collection. */
  lemma FaithfulOutcome<F>(backing: seq<F>, url: string, n: nat)
    requires StopsAt(Faithful(backing), url, n)
    ensures n == |backing| / PageSize
    ensures Accumulated(Faithful(backing), url, n + 1) == backing
  {
    FaithfulStops(backing, url);
    StopsAtUnique(Faithful(backing), url, n, |backing| / PageSize);
    FaithfulFetchIsWhole(backing, url);
  }

  /** When the collection size is an exact multiple of `PageSize`, the last
      request is answered with an empty page. */
  lemma ExactMultipleEndsWithEmptyPage<F>(backing: seq<F>, url: string)
    requires |backing| % PageSize == 0
    ensures PageAt(Faithful(backing), url, |backing| / PageSize) == []
  {
    FaithfulPage(backing, url, |backing| / PageSize);
  }

  /** `fetch_features` against a faithful source returns the whole collection
      after exactly `n / 1000 + 1` requests; so 1000 features cost two
      requests, the second answered with an empty page. */
  method FetchFromFaithfulSource<F>(url: string, backing: seq<F>)
    returns (features: seq<F>, sent: seq<Request>)
    ensures features == backing
    ensures |sent| == |backing| / PageSize + 1
    ensures forall k :: 0 <= k < |sent| ==> sent[k].startIndex == k * PageSize && sent[k].count == PageSize
  {
    FaithfulStops(backing, url);
    features, sent := FetchFeatures(url, Faithful(backing), |backing| / PageSize);
    FaithfulOutcome(backing, url, |sent| - 1);
  }
}
