/**
 * The parts of a WHATWG URL record (URL Standard, section 4) that the script
 * reads. The parser itself (section 4.4, "URL parsing", behind `new URL(s)`)
 * is outside the model: every operation takes it as a parameter `parse`,
 * which yields `None` where `new URL(s)` throws.
 */
module Url {
  import opened Wrappers

  datatype UrlRec = UrlRec(
    protocol: string,                   // `u.protocol`, scheme plus ':' ("https:")
    hostname: string,                   // `u.hostname`
    pathname: string,                   // `u.pathname`
    query: seq<(string, string)>,       // `u.searchParams`, name/value pairs in order
    serialized: string)                 // `u.toString()`, the href

  type Parser = string -> Option<UrlRec>

  /** `searchParams.get(name)` (URL Standard, section 6.2): the value of the first pair named `name`. */
  function SearchParamsGet(query: seq<(string, string)>, name: string): (r: Option<string>)
    ensures r.None? <==> forall k :: 0 <= k < |query| ==> query[k].0 != name
    ensures r.Some? ==> exists k :: 0 <= k < |query| && query[k] == (name, r.value)
                                    && forall j :: 0 <= j < k ==> query[j].0 != name
    decreases |query|
  {
    if |query| == 0 then None
    else if query[0].0 == name then Some(query[0].1)
    else
      var r := SearchParamsGet(query[1..], name);
      assert forall k :: 1 <= k < |query| ==> query[k] == query[1..][k - 1];
      r
  }

  /** `%2e` in either case: the escaped form of `.`. */
  predicate IsEscapedDot(t: string) {
    |t| == 3 && t[0] == '%' && t[1] == '2' && (t[2] == 'e' || t[2] == 'E')
  }

  /**
   * A single-dot or double-dot URL path segment, as the URL Standard defines
   * them: `.` or `%2e`, and `..`, `.%2e`, `%2e.` or `%2e%2e`, each `%2e` in
   * either case. The path parser removes such a segment.
   */
  predicate IsDotSegment(s: string) {
    s == "." || IsEscapedDot(s) || s == ".."
    || (|s| == 4 && s[0] == '.' && IsEscapedDot(s[1..]))
    || (|s| == 4 && IsEscapedDot(s[..3]) && s[3] == '.')
    || (|s| == 6 && IsEscapedDot(s[..3]) && IsEscapedDot(s[3..]))
  }
}
