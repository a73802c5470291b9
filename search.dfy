/**
 * The search library seen from the scrapers: a call with a query and a
 * result count that yields a list of URLs. The library is not modelled; its
 * answers are given as canned responses, one per call in call order, and a
 * call whose library call raised is a call that answered `[]`.
 */
module Search {

  import opened Urls

  /** One call of the search wrapper, with the query and count it was given. */
  datatype SearchCall = SearchCall(query: string, count: int)

  /** The answer to the `k`-th call (from 0); calls beyond the canned ones find nothing. */
  function Response(responses: seq<seq<Url>>, k: nat): seq<Url> {
    if k < |responses| then responses[k] else []
  }
}
