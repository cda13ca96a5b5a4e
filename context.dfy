/**
 * The values the snippet collects from the browser for a fresh visitor:
 * `getDeviceType`, `getUTMParameters` and `getReferringDomain`. The
 * user-agent regular expressions, `URLSearchParams` and `new URL` are not
 * evaluated here: their outcomes are inputs.
 */
module Context {
  import opened Common

  /**
   * `getDeviceType()`. `tabletAgent` is the outcome of `/Tablet|iPad/i` on the
   * user agent, `mobileAgent` that of
   * `/Mobile|Android|iPhone|iPod|IEMobile|BlackBerry/i`. A tablet is reported
   * as a mobile device, so the result is never `Tablet`.
   */
  function DeviceType(tabletAgent: bool, mobileAgent: bool): (d: Device)
    ensures d != Tablet
    ensures d == Mobile <==> tabletAgent || mobileAgent
  {
    if tabletAgent then Mobile
    else if mobileAgent then Mobile
    else Desktop
  }

  /** The query parameters `getUTMParameters` looks at, in the order it visits them. */
  const UtmKeys: seq<string> := ["utm_source", "utm_medium", "utm_campaign", "utm_term", "utm_content"]

  /**
   * The `reduce` of `getUTMParameters`: for each key in turn, a truthy
   * (present and non-empty) query value is stored in the accumulator.
   */
  function UtmFold(keys: seq<string>, query: map<string, string>, acc: map<string, string>): (r: map<string, string>)
    ensures forall k :: k in r <==> k in acc || (k in keys && k in query && query[k] != "")
    ensures forall k :: k in r ==> r[k] == if k in keys && k in query && query[k] != "" then query[k] else acc[k]
  {
    if keys == [] then acc
    else
      var key := keys[0];
      var acc' := if key in query && query[key] != "" then acc[key := query[key]] else acc;
      assert forall k :: k in keys <==> k == key || k in keys[1..];
      UtmFold(keys[1..], query, acc')
  }

  /**
   * `getUTMParameters()` over the page's query, given as the first value of
   * each parameter. The result holds only UTM keys; a key is present exactly
   * when the query gives it a non-empty value, and then it maps to that value.
   */
  function UtmParameters(query: map<string, string>): (r: map<string, string>)
    ensures r.Keys <= set k | k in UtmKeys
    ensures forall k :: k in r <==> k in UtmKeys && k in query && query[k] != ""
    ensures forall k :: k in r ==> r[k] == query[k]
  {
    UtmFold(UtmKeys, query, map[])
  }

  /**
   * `getReferringDomain(referrer)`, where `hostname` is what
   * `new URL(referrer).hostname` gives: the domain is empty exactly when there
   * is no referrer or its URL has no host, and a non-empty domain is that host.
   */
  function ReferringDomain(referrer: string, hostname: string): (domain: string)
    ensures domain == "" <==> referrer == "" || hostname == ""
    ensures domain != "" ==> domain == hostname
  {
    if referrer == "" then "" else hostname
  }
}
