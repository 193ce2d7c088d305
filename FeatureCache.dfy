/** The `@lru_cache(maxsize=None)` on `fetch_features` (main.py:20): an
    unbounded per-URL memo of fetched feature lists that is never evicted. */
module FeatureCache {
  import opened Wfs
  import FaithfulSource

  /** `features` is what a complete fetch of `url` from `server` returns. */
  ghost predicate Complete<F>(server: Server<F>, url: string, features: seq<F>) {
    exists n: nat :: StopsAt(server, url, n) && features == Accumulated(server, url, n + 1)
  }

  /** Two complete fetches of one URL from one server agree. */
  lemma CompleteIsDeterministic<F>(server: Server<F>, url: string, a: seq<F>, b: seq<F>)
    requires Complete(server, url, a) && Complete(server, url, b)
    ensures a == b
  {
    var n: nat :| StopsAt(server, url, n) && a == Accumulated(server, url, n + 1);
    var m: nat :| StopsAt(server, url, m) && b == Accumulated(server, url, m + 1);
    StopsAtUnique(server, url, n, m);
  }

  /** A complete fetch from a faithful source is the source's whole collection. */
  lemma FaithfulCompleteIsBacking<F>(backing: seq<F>, url: string, features: seq<F>)
    requires Complete(FaithfulSource.Faithful(backing), url, features)
    ensures features == backing
  {
    var n: nat :| StopsAt(FaithfulSource.Faithful(backing), url, n)
               && features == Accumulated(FaithfulSource.Faithful(backing), url, n + 1);
    FaithfulSource.FaithfulOutcome(backing, url, n);
  }

  /** The memoised `fetch_features` for one server, with a count of the page
      requests it has sent. */
  class Cache<F> {
    const server: Server<F>
    var entries: map<string, seq<F>>
    var requestCount: nat

    /** Every cached list is the complete fetch of its URL. */
    ghost predicate Valid()
      reads this
    {
      forall url :: url in entries ==> Complete(server, url, entries[url])
    }

    constructor (server: Server<F>)
      ensures Valid()
      ensures this.server == server && entries == map[] && requestCount == 0
    {
      this.server := server;
      entries := map[];
      requestCount := 0;
    }

    /** A cached URL is answered from the memo with no request; otherwise the
        pages are fetched and the result is remembered for good. `last` names
        a page the server answers short, needed only on a miss. */
    method Fetch(url: string, ghost last: nat) returns (features: seq<F>)
      requires Valid()
      requires url !in entries ==> |PageAt(server, url, last)| < PageSize
      modifies this
      ensures Valid()
      ensures Complete(server, url, features)
      ensures url in old(entries) ==>
        && features == old(entries)[url]
        && entries == old(entries)
        && requestCount == old(requestCount)
      ensures url !in old(entries) ==>
        && entries == old(entries)[url := features]
        && requestCount > old(requestCount)
        && StopsAt(server, url, requestCount - old(requestCount) - 1)
        && features == Accumulated(server, url, requestCount - old(requestCount))
    {
      if url in entries {
        features := entries[url];
        return;
      }
      var sent;
      features, sent := FetchFeatures(url, server, last);
      entries := entries[url := features];
      requestCount := requestCount + |sent|;
    }
  }

  /** Fetching one URL twice sends requests only the first time and returns
      equal lists. */
  method FetchTwice<F>(cache: Cache<F>, url: string, ghost last: nat)
    returns (first: seq<F>, second: seq<F>)
    requires cache.Valid()
    requires url !in cache.entries ==> |PageAt(cache.server, url, last)| < PageSize
    modifies cache
    ensures cache.Valid()
    ensures first == second
    ensures cache.entries == old(cache.entries)[url := first]
    ensures url in old(cache.entries) ==>
      cache.requestCount == old(cache.requestCount) && first == old(cache.entries)[url]
    ensures url !in old(cache.entries) ==>
      && cache.requestCount > old(cache.requestCount)
      && StopsAt(cache.server, url, cache.requestCount - old(cache.requestCount) - 1)
  {
    first := cache.Fetch(url, last);
    var before := cache.requestCount;
    second := cache.Fetch(url, last);
    assert cache.requestCount == before;
  }
}
