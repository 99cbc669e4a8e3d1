/** The route-list panel (src/flask_debugtoolbar/panels/route_list.py and the
    identical older flask_debugtoolbar/panels/route_list.py): the
    application's URL rules without the toolbar's own. */
module Routes {
  import opened Text
  import opened Seqs

  /** A `werkzeug.routing.Rule`, reduced to its pattern and endpoint. */
  datatype Rule = Rule(rule: string, endpoint: string)

  const ToolbarPrefix: string := "/_debug_toolbar"

  predicate Listed(r: Rule) {
    !StartsWith(r.rule, ToolbarPrefix)
  }

  /** The class-level `routes` before any request. */
  const DefaultRoutes: seq<Rule> := []

  /** `process_request`: the rules of `url_map.iter_rules()` not under the
      toolbar's prefix, in the map's order. */
  function ProcessRequest(urlMap: seq<Rule>): (r: seq<Rule>)
    ensures forall i :: 0 <= i < |r| ==> !StartsWith(r[i].rule, ToolbarPrefix)
    ensures forall x :: x in r ==> x in urlMap
    ensures forall x :: x in urlMap && !StartsWith(x.rule, ToolbarPrefix) ==> x in r
  {
    Filter(urlMap, Listed)
  }

  /** The kept rules keep their relative order: listing a concatenation of
      rule maps lists each part in turn. */
  lemma ProcessRequestKeepsOrder(a: seq<Rule>, b: seq<Rule>)
    ensures ProcessRequest(a + b) == ProcessRequest(a) + ProcessRequest(b)
  {
    FilterConcat(a, b, Listed);
  }

  /** A rule map without toolbar rules is listed unchanged. */
  lemma ProcessRequestKeepsAppRules(urlMap: seq<Rule>)
    requires forall i :: 0 <= i < |urlMap| ==> !StartsWith(urlMap[i].rule, ToolbarPrefix)
    ensures ProcessRequest(urlMap) == urlMap
  {
    FilterAllKept(urlMap, Listed);
  }

  /** `nav_subtitle`: "1 route" or "N routes". */
  function NavSubtitle(routes: seq<Rule>): (r: string)
    ensures |routes| == 1 ==> r == "1 route"
    ensures |routes| != 1 ==> r == NatToString(|routes|) + " routes"
  {
    Counted(|routes|, "route", "routes")
  }

  /** Before `process_request` runs the panel reports no routes. */
  lemma DefaultSubtitle()
    ensures NavSubtitle(DefaultRoutes) == "0 routes"
  {
    assert NatToString(0) == "0";
  }
}
