/** Helpers of the REST client page: the header map sent with a request and
    the colour class of a response status. */
module ClientUtils {
  import opened Wrappers
  import opened Types

  /** Header `h` takes part in the request under key `k`: it is enabled and
      its key is `k`, which is not empty. */
  predicate Contributes(h: Header, k: string) {
    h.enabled && h.key != "" && h.key == k
  }

  /** Among the first `n` headers, the one at `i` is the last contributing to `k`. */
  ghost predicate LastContributor(headers: seq<Header>, n: nat, i: int, k: string)
    requires n <= |headers|
  {
    0 <= i < n && Contributes(headers[i], k) && forall j :: i < j < n ==> !Contributes(headers[j], k)
  }

  /** Folds the header rows into a key-to-value map: only enabled rows with
      a non-empty key are kept, and a later row wins over an earlier one with
      the same key. */
  method GetFilteredHeaders(headers: seq<Header>) returns (acc: map<string, string>)
    ensures forall k :: k in acc <==> exists i :: 0 <= i < |headers| && Contributes(headers[i], k)
    ensures forall k :: k in acc ==>
      exists i :: LastContributor(headers, |headers|, i, k) && acc[k] == headers[i].value
    ensures "" !in acc
    ensures headers == [] ==> acc == map[]
  {
    acc := map[];
    var n := 0;
    while n < |headers|
      invariant 0 <= n <= |headers|
      invariant forall k :: k in acc <==> exists i :: 0 <= i < n && Contributes(headers[i], k)
      invariant forall k :: k in acc ==>
        exists i :: LastContributor(headers, n, i, k) && acc[k] == headers[i].value
    {
      var h := headers[n];
      if h.enabled && h.key != "" {
        acc := acc[h.key := h.value];
        assert LastContributor(headers, n + 1, n, h.key);
      }
      forall k | k in acc
        ensures exists i :: LastContributor(headers, n + 1, i, k) && acc[k] == headers[i].value
      {
        if !Contributes(h, k) {
          var i :| LastContributor(headers, n, i, k) && acc[k] == headers[i].value;
          assert LastContributor(headers, n + 1, i, k);
        } else {
          assert LastContributor(headers, n + 1, n, k);
        }
      }
      n := n + 1;
    }
  }

  const Gray := "text-gray-500"
  const Green := "text-green-600"
  const Blue := "text-blue-600"
  const Yellow := "text-yellow-600"
  const Red := "text-red-600"

  /** The colour class of a response status; `None` is a status not yet known. */
  function GetStatusColor(status: Option<int>): (color: string)
    ensures color in {Gray, Green, Blue, Yellow, Red}
    ensures color == Green <==> status.Some? && 200 <= status.value < 300
    ensures color == Blue <==> status.Some? && 300 <= status.value < 400
    ensures color == Yellow <==> status.Some? && 400 <= status.value < 500
    ensures color == Red <==> status.Some? && 500 <= status.value
    ensures color == Gray <==> status.None? || status.value < 200
  {
    if status.None? || status.value == 0 then Gray
    else if status.value >= 200 && status.value < 300 then Green
    else if status.value >= 300 && status.value < 400 then Blue
    else if status.value >= 400 && status.value < 500 then Yellow
    else if status.value >= 500 then Red
    else Gray
  }
}
