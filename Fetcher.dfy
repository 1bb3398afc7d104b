/**
 * The retrying fetcher. Transport is not modelled: `net(url, k)` is what the
 * `k`-th request for `url` yields, either the body of a successful response or a
 * failure (an exception from the request, or a non-success status).
 */
module Fetcher {
  import opened Wrappers

  datatype Response = Ok(text: string) | Failed

  type Network = (string, nat) -> Response

  /** Number of requests made for one URL before giving up. */
  const MaxAttempts: nat := 3

  /** The body of the first successful attempt numbered `k` or later, if one comes before the bound. */
  function FetchFrom(net: Network, url: string, k: nat): Option<string>
    decreases MaxAttempts - k
  {
    if k >= MaxAttempts then None
    else match net(url, k)
      case Ok(text) => Some(text)
      case Failed => FetchFrom(net, url, k + 1)
  }

  /** What `fetch(url)` returns. */
  function FetchResult(net: Network, url: string): (html: Option<string>)
    ensures html.None? <==> forall k :: 0 <= k < MaxAttempts ==> net(url, k).Failed?
    ensures html.Some? ==> exists k :: 0 <= k < MaxAttempts && net(url, k) == Ok(html.value)
  {
    FetchFrom(net, url, 0)
  }

  /**
   * The fetch yields a body exactly when one of the first `MaxAttempts` attempts succeeds,
   * and then it is the body of the first one that did; it yields nothing when all fail.
   */
  lemma FetchResultMeaning(net: Network, url: string)
    ensures FetchResult(net, url).Some?
        <==> exists k :: 0 <= k < MaxAttempts && net(url, k).Ok?
    ensures FetchResult(net, url).Some? ==>
      exists k :: 0 <= k < MaxAttempts && net(url, k) == Ok(FetchResult(net, url).value)
        && forall j :: 0 <= j < k ==> net(url, j).Failed?
  {
    var r := FetchResult(net, url);
    if net(url, 0).Ok? {
      assert net(url, 0) == Ok(r.value);
    } else if net(url, 1).Ok? {
      assert net(url, 1) == Ok(r.value);
    } else if net(url, 2).Ok? {
      assert net(url, 2) == Ok(r.value);
    }
  }

  /**
   * `fetch`: at most `MaxAttempts` requests, stopping at the first success.
   * `attempts` is the number of requests made.
   */
  method Fetch(url: string, net: Network) returns (html: Option<string>, attempts: nat)
    ensures html == FetchResult(net, url)
    ensures 1 <= attempts <= MaxAttempts
    ensures forall k :: 0 <= k < attempts - 1 ==> net(url, k).Failed?
    ensures html.Some? ==> net(url, attempts - 1) == Ok(html.value)
    ensures html.None? ==> attempts == MaxAttempts && net(url, attempts - 1).Failed?
  {
    for attempt := 0 to MaxAttempts
      invariant forall k :: 0 <= k < attempt ==> net(url, k).Failed?
      invariant FetchFrom(net, url, attempt) == FetchResult(net, url)
    {
      var response := net(url, attempt);
      if response.Ok? {
        return Some(response.text), attempt + 1;
      }
    }
    return None, MaxAttempts;
  }
}
