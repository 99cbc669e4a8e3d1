/** `DebugToolbarExtension` (src/flask_debugtoolbar/__init__.py): configuration
    defaults, the per-request toolbar store, the request/view/response hooks
    that drive the panels, and the injection of the rendered toolbar into
    HTML responses. */
module Extension {
  import opened Text
  import opened Results
  import opened Panels
  import opened Registry

  /** Status codes whose responses get a toolbar. */
  const ToolbarCodes: seq<int> := [200, 201, 400, 401, 403, 404, 405, 500, 501, 502, 503, 504]

  /** Status codes that are intercepted as redirects. */
  const RedirectCodes: seq<int> := [301, 302, 303, 304]

  /** The panels configured when the application sets none. */
  const DefaultPanels: seq<string> := [
    "flask_debugtoolbar.panels.versions.VersionDebugPanel",
    "flask_debugtoolbar.panels.timer.TimerDebugPanel",
    "flask_debugtoolbar.panels.headers.HeaderDebugPanel",
    "flask_debugtoolbar.panels.request_vars.RequestVarsDebugPanel",
    "flask_debugtoolbar.panels.config_vars.ConfigVarsDebugPanel",
    "flask_debugtoolbar.panels.template.TemplateDebugPanel",
    "flask_debugtoolbar.panels.sqlalchemy.SQLAlchemyDebugPanel",
    "flask_debugtoolbar.panels.logger.LoggingPanel",
    "flask_debugtoolbar.panels.route_list.RouteListDebugPanel",
    "flask_debugtoolbar.panels.profiler.ProfilerDebugPanel",
    "flask_debugtoolbar.panels.g.GDebugPanel"
  ]

  /** `replace_insensitive`: the LAST case-insensitive occurrence of `target`
      is replaced; without one the string is returned as it is. */
  function ReplaceInsensitive(s: string, target: string, replacement: string): (r: string)
    ensures (forall j :: !CiOccursAt(s, target, j)) ==> r == s
    ensures forall i :: IsLastCiMatch(s, target, i) ==>
      r == s[..i] + replacement + s[i + |target|..]
  {
    var index := RFindInsensitive(s, target);
    if index >= 0 then s[..index] + replacement + s[index + |target|..] else s
  }

  /** An earlier occurrence of the target is left alone: only text from the
      last match on changes. */
  lemma ReplaceInsensitiveKeepsPrefix(s: string, target: string, replacement: string, i: int)
    requires IsLastCiMatch(s, target, i)
    ensures StartsWith(ReplaceInsensitive(s, target, replacement), s[..i])
    ensures EndsWith(ReplaceInsensitive(s, target, replacement), s[i + |target|..])
    ensures |ReplaceInsensitive(s, target, replacement)| == |s| - |target| + |replacement|
  {
    var r := ReplaceInsensitive(s, target, replacement);
    assert r == s[..i] + replacement + s[i + |target|..];
    assert r[..i] == s[..i];
    assert r[|r| - |s[i + |target|..]|..] == s[i + |target|..];
  }

  /** A configuration value as the extension reads it. */
  datatype Value = Flag(on: bool) | Str(text: string) | Names(names: seq<string>)

  /** Python truthiness of a configuration value. */
  predicate Truthy(v: Value) {
    match v
    case Flag(b) => b
    case Str(s) => s != ""
    case Names(xs) => |xs| > 0
  }

  type Config = map<string, Value>

  /** `_default_config(app)`. */
  function DefaultConfig(debug: bool): (r: Config)
    ensures r.Keys == {"DEBUG_TB_ENABLED", "DEBUG_TB_HOSTS", "DEBUG_TB_INTERCEPT_REDIRECTS",
                       "DEBUG_TB_PANELS", "SQLALCHEMY_RECORD_QUERIES"}
    ensures Truthy(r["DEBUG_TB_ENABLED"]) <==> debug
    ensures Truthy(r["SQLALCHEMY_RECORD_QUERIES"]) <==> debug
    ensures !Truthy(r["DEBUG_TB_HOSTS"]) && Truthy(r["DEBUG_TB_INTERCEPT_REDIRECTS"])
    ensures r["DEBUG_TB_PANELS"] == Names(DefaultPanels)
  {
    map["DEBUG_TB_ENABLED" := Flag(debug),
        "DEBUG_TB_HOSTS" := Names([]),
        "DEBUG_TB_INTERCEPT_REDIRECTS" := Flag(true),
        "DEBUG_TB_PANELS" := Names(DefaultPanels),
        "SQLALCHEMY_RECORD_QUERIES" := Flag(debug)]
  }

  /** `app.config.setdefault(k, v)` for every default: the application's own
      values win, missing keys get the default. */
  function SetDefaults(config: Config, defaults: Config): (r: Config)
    ensures r.Keys == config.Keys + defaults.Keys
    ensures forall k :: k in config ==> r[k] == config[k]
    ensures forall k :: k in defaults && k !in config ==> r[k] == defaults[k]
  {
    defaults + config
  }

  /** Applying the defaults a second time changes nothing. */
  lemma SetDefaultsIdempotent(config: Config, defaults: Config)
    ensures SetDefaults(SetDefaults(config, defaults), defaults) == SetDefaults(config, defaults)
  {
  }

  /** `DEBUG_TB_PANELS` as a list of paths; any other kind of value lists none. */
  function PanelPaths(config: Config): seq<string> {
    if "DEBUG_TB_PANELS" in config && config["DEBUG_TB_PANELS"].Names? then config["DEBUG_TB_PANELS"].names
    else []
  }

  /** The application after `init_app`. */
  datatype Setup<S> = Setup(config: Config, hooksRegistered: bool,
                            initialized: seq<PanelClass<S>>, cache: Cache<S>)

  /** Whether the toolbar is enabled once defaults are applied. */
  predicate EnabledAfterDefaults(config: Config, debug: bool) {
    if "DEBUG_TB_ENABLED" in config then Truthy(config["DEBUG_TB_ENABLED"]) else debug
  }

  predicate HasSecretKey(config: Config) {
    "SECRET_KEY" in config && Truthy(config["SECRET_KEY"])
  }

  lemma DefaultsApplied(config: Config, debug: bool)
    ensures var cfg := SetDefaults(config, DefaultConfig(debug));
            && "DEBUG_TB_ENABLED" in cfg
            && (Truthy(cfg["DEBUG_TB_ENABLED"]) <==> EnabledAfterDefaults(config, debug))
            && (("SECRET_KEY" in cfg && Truthy(cfg["SECRET_KEY"])) <==> HasSecretKey(config))
  {
    var d := DefaultConfig(debug);
    assert "SECRET_KEY" !in d;
  }

  /** `init_app`: defaults are applied; a disabled toolbar stops there; an
      enabled one without a truthy `SECRET_KEY` raises `RuntimeError`;
      otherwise every configured panel class is loaded and the hooks are
      registered. */
  function InitApp<S>(config: Config, debug: bool, cache: Cache<S>, mods: Modules<S>)
    : (r: Result<Setup<S>>)
    ensures r.Err? <==> EnabledAfterDefaults(config, debug) && !HasSecretKey(config)
    ensures r.Err? ==> r.error.RuntimeError?
    ensures r.Ok? ==> (r.value.hooksRegistered <==> EnabledAfterDefaults(config, debug))
    ensures r.Ok? ==> forall k :: k in config ==> k in r.value.config && r.value.config[k] == config[k]
    ensures r.Ok? ==> DefaultConfig(debug).Keys <= r.value.config.Keys
    ensures r.Ok? && !r.value.hooksRegistered ==> r.value.initialized == [] && r.value.cache == cache
    ensures r.Ok? && r.value.hooksRegistered ==>
      var paths := PanelPaths(r.value.config);
      forall i :: 0 <= i < |paths| ==> paths[i] in r.value.cache
  {
    var cfg := SetDefaults(config, DefaultConfig(debug));
    DefaultsApplied(config, debug);
    if !Truthy(cfg["DEBUG_TB_ENABLED"]) then Ok(Setup(cfg, false, [], cache))
    else if !("SECRET_KEY" in cfg && Truthy(cfg["SECRET_KEY"])) then
      Err(RuntimeError("The Flask-DebugToolbar requires the 'SECRET_KEY' config var to be set"))
    else
      var (classes, cache') := LoadPanels(cache, mods, PanelPaths(cfg));
      Ok(Setup(cfg, true, classes, cache'))
  }

  /** `_show_toolbar`: never for the toolbar's own blueprint, and only for
      listed client addresses when `DEBUG_TB_HOSTS` is non-empty. */
  function ShowToolbar(blueprint: Option<string>, remoteAddr: Option<string>, hosts: seq<string>): (r: bool)
    ensures blueprint == Some("debugtoolbar") ==> !r
    ensures |hosts| == 0 ==> (r <==> blueprint != Some("debugtoolbar"))
    ensures r && |hosts| > 0 ==> remoteAddr.Some? && remoteAddr.value in hosts
    ensures blueprint != Some("debugtoolbar") && remoteAddr.Some? && remoteAddr.value in hosts ==> r
  {
    if blueprint == Some("debugtoolbar") then false
    else if |hosts| > 0 && !(remoteAddr.Some? && remoteAddr.value in hosts) then false
    else true
  }

  /** A non-empty `DEBUG_TB_HOSTS` narrows the decision taken without it to
      the listed addresses, and widening the list never hides the toolbar. */
  lemma HostsNarrowShowing(blueprint: Option<string>, remoteAddr: Option<string>, hosts: seq<string>,
                           more: seq<string>)
    ensures |hosts| > 0 ==>
      (ShowToolbar(blueprint, remoteAddr, hosts) <==>
       ShowToolbar(blueprint, remoteAddr, []) && remoteAddr.Some? && remoteAddr.value in hosts)
    ensures |hosts| > 0 && ShowToolbar(blueprint, remoteAddr, hosts) ==> ShowToolbar(blueprint, remoteAddr, hosts + more)
  {
    if |hosts| > 0 && ShowToolbar(blueprint, remoteAddr, hosts) {
      assert remoteAddr.value in hosts + more;
    }
  }

  /** The response fields the extension reads and writes. */
  datatype Body = Buffered(data: seq<byte>) | Streamed

  datatype Response = Response(status: int, location: Option<string>, contentType: string,
                               contentEncoding: Option<string>, body: Body,
                               contentLength: Option<nat>)

  /** UTF-8 and gzip, given as functions. Encoding and compressing always
      succeed; `decode` is `None` on bytes that are not UTF-8 and
      `decompress` is `None` on data that is not a gzip stream. */
  datatype Codecs = Codecs(encode: string -> seq<byte>, decode: seq<byte> -> Option<string>,
                           compress: seq<byte> -> seq<byte>, decompress: seq<byte> -> Option<seq<byte>>)

  /** The three hooks every panel implements; `R` is the request, `V` a view function. */
  datatype Hooks<!S, !R, !V> = Hooks(
    onRequest: (Panel<S>, R) -> Panel<S>,
    onView: (Panel<S>, R, V, map<string, string>) -> (Panel<S>, Option<V>),
    onResponse: (Panel<S>, R, Response) -> Panel<S>)

  /** `debug_toolbars_var`: the toolbar of each request that shows one. */
  type Store<S, R(==)> = map<R, Toolbar<S>>

  function RequestHooks<S, R>(panels: seq<Panel<S>>, req: R, hook: (Panel<S>, R) -> Panel<S>)
    : (r: seq<Panel<S>>)
    ensures |r| == |panels|
    ensures forall i :: 0 <= i < |panels| ==> r[i] == hook(panels[i], req)
  {
    seq(|panels|, i requires 0 <= i < |panels| => hook(panels[i], req))
  }

  /** `process_request`: when the toolbar is shown the store is reset to hold
      only this request's created toolbar, whose panels have each run their
      `process_request` hook; otherwise nothing changes. */
  function ProcessRequest<S, R(==), V>(store: Store<S, R>, req: R, shown: bool, created: Toolbar<S>,
                                       hooks: Hooks<S, R, V>)
    : (r: Store<S, R>)
    ensures !shown ==> r == store
    ensures shown ==> r.Keys == {req} && r[req].templateContext == created.templateContext
    ensures shown ==> |r[req].panels| == |created.panels|
    ensures shown ==> forall i :: 0 <= i < |created.panels| ==>
      r[req].panels[i] == hooks.onRequest(created.panels[i], req)
  {
    if !shown then store
    else map[req := created.(panels := RequestHooks(created.panels, req, hooks.onRequest))]
  }

  /** The loop of `process_view`: each panel sees the current view and may
      replace it; the panels' own state is updated as they go. */
  function FoldViews<S, R, V>(panels: seq<Panel<S>>, req: R, view: V, kwargs: map<string, string>,
                              hook: (Panel<S>, R, V, map<string, string>) -> (Panel<S>, Option<V>))
    : (r: (seq<Panel<S>>, V))
    ensures |r.0| == |panels|
    decreases |panels|
  {
    if |panels| == 0 then ([], view)
    else
      var (p, replacement) := hook(panels[0], req, view, kwargs);
      var (rest, v) := FoldViews(panels[1..], req, replacement.GetOr(view), kwargs, hook);
      ([p] + rest, v)
  }

  /** Appending a panel runs its hook last, on the view the others produced,
      and its replacement (if any) is the final view. */
  lemma {:induction false} FoldViewsSnoc<S, R, V>(panels: seq<Panel<S>>, last: Panel<S>, req: R, view: V,
                                                  kwargs: map<string, string>,
                                                  hook: (Panel<S>, R, V, map<string, string>) -> (Panel<S>, Option<V>))
    ensures var (ps, v) := FoldViews(panels, req, view, kwargs, hook);
            var (q, replacement) := hook(last, req, v, kwargs);
            FoldViews(panels + [last], req, view, kwargs, hook) == (ps + [q], replacement.GetOr(v))
    decreases |panels|
  {
    if |panels| == 0 {
      assert panels + [last] == [last];
      assert [last][1..] == [];
      var (q, replacement) := hook(last, req, view, kwargs);
      assert FoldViews(panels, req, view, kwargs, hook) == ([], view);
      assert FoldViews([last][1..], req, replacement.GetOr(view), kwargs, hook) == ([], replacement.GetOr(view));
      assert FoldViews([last], req, view, kwargs, hook) == ([q] + [], replacement.GetOr(view));
      assert [] + [q] == [q] + [];
    } else {
      var (p, replacement) := hook(panels[0], req, view, kwargs);
      assert (panels + [last])[0] == panels[0];
      assert (panels + [last])[1..] == panels[1..] + [last];
      FoldViewsSnoc(panels[1..], last, req, replacement.GetOr(view), kwargs, hook);
      var (ps, v) := FoldViews(panels[1..], req, replacement.GetOr(view), kwargs, hook);
      var (q, _) := hook(last, req, v, kwargs);
      assert [p] + (ps + [q]) == ([p] + ps) + [q];
    }
  }

  /** The `for panel in toolbar.panels` loop of `process_view` as written,
      one panel at a time; it ends where the recursive fold ends. */
  method RunViewHooks<S, R, V>(panels: seq<Panel<S>>, req: R, view: V, kwargs: map<string, string>,
                               hook: (Panel<S>, R, V, map<string, string>) -> (Panel<S>, Option<V>))
    returns (updated: seq<Panel<S>>, viewFunc: V)
    ensures (updated, viewFunc) == FoldViews(panels, req, view, kwargs, hook)
  {
    updated, viewFunc := [], view;
    var i := 0;
    while i < |panels|
      invariant 0 <= i <= |panels|
      invariant (updated, viewFunc) == FoldViews(panels[..i], req, view, kwargs, hook)
    {
      FoldViewsSnoc(panels[..i], panels[i], req, view, kwargs, hook);
      assert panels[..i + 1] == panels[..i] + [panels[i]];
      var (p, newView) := hook(panels[i], req, viewFunc, kwargs);
      updated := updated + [p];
      if newView.Some? {
        viewFunc := newView.value;
      }
      i := i + 1;
    }
    assert panels[..i] == panels;
  }

  /** When every panel keeps the default hook, the view and the panels are unchanged. */
  lemma {:induction false} FoldViewsDefault<S, R, V>(panels: seq<Panel<S>>, req: R, view: V,
                                                     kwargs: map<string, string>)
    ensures FoldViews(panels, req, view, kwargs, DefaultProcessView) == (panels, view)
    decreases |panels|
  {
    if |panels| > 0 {
      FoldViewsDefault(panels[1..], req, view, kwargs);
      assert panels == [panels[0]] + panels[1..];
    }
  }

  /** `process_view`: requests without a toolbar keep their view; otherwise
      the panels' hooks run in order and the last replacement wins. */
  function ProcessView<S, R(==), V>(store: Store<S, R>, req: R, view: V, kwargs: map<string, string>,
                                    hooks: Hooks<S, R, V>)
    : (r: (V, Store<S, R>))
    ensures req !in store ==> r == (view, store)
    ensures req in store ==> r.1.Keys == store.Keys
    ensures req in store ==> r.1[req].templateContext == store[req].templateContext
    ensures req in store ==> |r.1[req].panels| == |store[req].panels|
    ensures req in store ==>
      (r.1[req].panels, r.0) == FoldViews(store[req].panels, req, view, kwargs, hooks.onView)
    ensures forall q :: q in store && q != req ==> q in r.1 && r.1[q] == store[q]
  {
    if req !in store then (view, store)
    else
      var tb := store[req];
      var (panels, v) := FoldViews(tb.panels, req, view, kwargs, hooks.onView);
      (v, store[req := tb.(panels := panels)])
  }

  predicate IsRedirect(r: Response) {
    r.status in RedirectCodes
  }

  /** The redirect interception of `process_response`: a redirect with a
      non-empty target becomes a 200 page linking to it; `content_length`
      is set to the page's length in characters. */
  function InterceptRedirect(r: Response, codecs: Codecs, renderRedirect: (string, int) -> string)
    : (out: Response)
    ensures !IsRedirect(r) || r.location.None? || r.location == Some("") ==> out == r
    ensures IsRedirect(r) && r.location.Some? && r.location.value != "" ==>
      var page := renderRedirect(r.location.value, r.status);
      out == r.(status := 200, location := None, body := Buffered(codecs.encode(page)),
                contentLength := Some(|page|))
  {
    if IsRedirect(r) && r.location.Some? && r.location.value != "" then
      var content := renderRedirect(r.location.value, r.status);
      r.(status := 200, location := None, body := Buffered(codecs.encode(content)),
         contentLength := Some(|content|))
    else r
  }

  /** The gate of `process_response`: a toolbar status, a buffered body and an HTML content type. */
  predicate Qualifies(r: Response) {
    r.status in ToolbarCodes && r.body.Buffered? && StartsWith(r.contentType, "text/html")
  }

  predicate IsGzip(r: Response) {
    r.contentEncoding.Some? && Contains(r.contentEncoding.value, "gzip")
  }

  /** Bytes read as UTF-8 text, or the `UnicodeDecodeError` of `bytes.decode`. */
  function Decoded(b: seq<byte>, codecs: Codecs): Result<string> {
    match codecs.decode(b)
    case None => Err(UnicodeDecodeError)
    case Some(text) => Ok(text)
  }

  /** The response body as text, gunzipped first when the encoding says gzip;
      a body that does not gunzip or decode gives the exception instead. */
  function ResponseText(r: Response, codecs: Codecs): Result<string>
    requires r.body.Buffered?
  {
    if IsGzip(r) then
      match codecs.decompress(r.body.data)
      case None => Err(GzipError)
      case Some(raw) => Decoded(raw, codecs)
    else Decoded(r.body.data, codecs)
  }

  /** Where the toolbar goes: before the last `</body>` in any case, or at the
      very end of a document starting with `<!doctype html>`; `None` when
      neither applies. */
  function InjectionPoint(html: string): (r: Option<nat>)
    ensures r.Some? ==> r.value <= |html|
    ensures (exists j :: CiOccursAt(html, "</body>", j)) ==> r.Some? && IsLastCiMatch(html, "</body>", r.value)
    ensures (forall j :: !CiOccursAt(html, "</body>", j)) ==>
      r == (if StartsWith(Lower(html), "<!doctype html>") then Some(|html|) else None)
  {
    var bodyEnd := RFindInsensitive(html, "</body>");
    if bodyEnd >= 0 then Some(bodyEnd)
    else if StartsWith(Lower(html), "<!doctype html>") then Some(|html|)
    else None
  }

  /** The panels after their `process_response` hooks, run once each in
      order; generic in the response so both package generations share it. */
  function ResponseHooks<S, R, Q>(panels: seq<Panel<S>>, req: R, resp: Q,
                                  hook: (Panel<S>, R, Q) -> Panel<S>)
    : (r: seq<Panel<S>>)
    ensures |r| == |panels|
    ensures forall i :: 0 <= i < |panels| ==> r[i] == hook(panels[i], req, resp)
  {
    seq(|panels|, i requires 0 <= i < |panels| => hook(panels[i], req, resp))
  }

  /** What `process_response` returns and leaves behind; `warned` records the
      "could not insert debug toolbar" warning. */
  datatype Outcome<S, R(==)> = Outcome(response: Response, store: Store<S, R>, warned: bool)

  /** The response after the optional redirect interception. */
  function AfterRedirect(resp: Response, interceptRedirects: bool, codecs: Codecs,
                         renderRedirect: (string, int) -> string): Response {
    if interceptRedirects then InterceptRedirect(resp, codecs, renderRedirect) else resp
  }

  /** `process_response`: nothing happens for a request without a toolbar;
      otherwise redirects may be intercepted, and a qualifying HTML response
      gets the rendered toolbar spliced in at its injection point, after
      every panel has run its `process_response` hook. The body is
      re-encoded (and re-gzipped when it was gzipped) and `content_length`
      is set to the new byte length. A qualifying response with no
      injection point is returned with a warning, and one whose body does
      not gunzip or decode raises before any panel hook runs. */
  function ProcessResponse<S, R(==), V>(store: Store<S, R>, req: R, resp: Response, interceptRedirects: bool,
                                        codecs: Codecs, renderRedirect: (string, int) -> string,
                                        render: Toolbar<S> -> string, hooks: Hooks<S, R, V>)
    : (r: Result<Outcome<S, R>>)
    ensures req !in store ==> r == Ok(Outcome(resp, store, false))
    ensures r.Ok? ==> r.value.store.Keys == store.Keys
    ensures r.Ok? ==> forall q :: q in store && q != req ==> r.value.store[q] == store[q]
    ensures req in store ==>
      var resp1 := AfterRedirect(resp, interceptRedirects, codecs, renderRedirect);
      && (r.Ok? ==>
            && r.value.response.status == resp1.status
            && r.value.response.contentType == resp1.contentType
            && r.value.response.contentEncoding == resp1.contentEncoding
            && r.value.response.location == resp1.location)
      && (!Qualifies(resp1) ==> r == Ok(Outcome(resp1, store, false)))
      && (Qualifies(resp1) ==>
            var html := ResponseText(resp1, codecs);
            && (html.Err? ==> r == Err(html.error))
            && (html.Ok? ==>
                  var point := InjectionPoint(html.value);
                  && r.Ok?
                  && (point.None? <==> r.value.warned)
                  && (point.None? ==> r.value == Outcome(resp1, store, true))
                  && (point.Some? ==>
                        && r.value.response.body.Buffered?
                        && r.value.response.contentLength == Some(|r.value.response.body.data|)
                        && r.value.store[req].templateContext == store[req].templateContext
                        && |r.value.store[req].panels| == |store[req].panels|
                        && forall i :: 0 <= i < |store[req].panels| ==>
                             r.value.store[req].panels[i] == hooks.onResponse(store[req].panels[i], req, resp1))))
  {
    if req !in store then Ok(Outcome(resp, store, false))
    else
      var resp1 := AfterRedirect(resp, interceptRedirects, codecs, renderRedirect);
      if !Qualifies(resp1) then Ok(Outcome(resp1, store, false))
      else
        match ResponseText(resp1, codecs)
        case Err(e) => Err(e)
        case Ok(html) =>
          match InjectionPoint(html)
          case None => Ok(Outcome(resp1, store, true))
          case Some(point) =>
            var tb := store[req];
            var tb' := tb.(panels := ResponseHooks(tb.panels, req, resp1, hooks.onResponse));
            var content := html[..point] + render(tb') + html[point..];
            var bytes := codecs.encode(content);
            var bytes' := if IsGzip(resp1) then codecs.compress(bytes) else bytes;
            Ok(Outcome(resp1.(body := Buffered(bytes'), contentLength := Some(|bytes'|)), store[req := tb'], false))
  }

  /** With codecs that round-trip, a readable HTML body with an injection
      point is processed without error; the new body reads back as the old
      HTML with the rendered toolbar inserted at the injection point, and
      cutting the toolbar out again gives the old HTML. */
  lemma InjectedTextRoundTrip<S, R, V>(store: Store<S, R>, req: R, resp: Response, interceptRedirects: bool,
                                           codecs: Codecs, renderRedirect: (string, int) -> string,
                                           render: Toolbar<S> -> string, hooks: Hooks<S, R, V>)
    requires forall s :: codecs.decode(codecs.encode(s)) == Some(s)
    requires forall b :: codecs.decompress(codecs.compress(b)) == Some(b)
    requires req in store
    requires Qualifies(AfterRedirect(resp, interceptRedirects, codecs, renderRedirect))
    ensures var resp1 := AfterRedirect(resp, interceptRedirects, codecs, renderRedirect);
            var html := ResponseText(resp1, codecs);
            var r := ProcessResponse(store, req, resp, interceptRedirects, codecs, renderRedirect, render, hooks);
            html.Ok? && InjectionPoint(html.value).Some? ==>
              var point := InjectionPoint(html.value).value;
              && r.Ok?
              && var toolbar := render(r.value.store[req]);
                 && ResponseText(r.value.response, codecs) == Ok(html.value[..point] + toolbar + html.value[point..])
                 && var text := ResponseText(r.value.response, codecs).value;
                    text[..point] + text[point + |toolbar|..] == html.value
  {
    var resp1 := AfterRedirect(resp, interceptRedirects, codecs, renderRedirect);
    if ResponseText(resp1, codecs).Ok? {
      var html := ResponseText(resp1, codecs).value;
      if InjectionPoint(html).Some? {
        var point := InjectionPoint(html).value;
        var r := ProcessResponse(store, req, resp, interceptRedirects, codecs, renderRedirect, render, hooks).value;
        var toolbar := render(r.store[req]);
        var content := html[..point] + toolbar + html[point..];
        var bytes := codecs.encode(content);
        assert IsGzip(r.response) == IsGzip(resp1);
        if IsGzip(resp1) {
          assert r.response.body.data == codecs.compress(bytes);
        } else {
          assert r.response.body.data == bytes;
        }
        assert ResponseText(r.response, codecs) == Ok(content);
        assert content[..point] == html[..point];
        assert content[point + |toolbar|..] == html[point..];
        assert html == html[..point] + html[point..];
      }
    }
  }

  /** A qualifying body that does not read back as text makes
      `process_response` raise: `GzipError` when a gzip-encoded body does not
      gunzip, `UnicodeDecodeError` when the (gunzipped) bytes are not UTF-8. */
  lemma UnreadableBodyRaises<S, R, V>(store: Store<S, R>, req: R, resp: Response, interceptRedirects: bool,
                                          codecs: Codecs, renderRedirect: (string, int) -> string,
                                          render: Toolbar<S> -> string, hooks: Hooks<S, R, V>)
    requires req in store
    requires Qualifies(AfterRedirect(resp, interceptRedirects, codecs, renderRedirect))
    ensures var resp1 := AfterRedirect(resp, interceptRedirects, codecs, renderRedirect);
            var r := ProcessResponse(store, req, resp, interceptRedirects, codecs, renderRedirect, render, hooks);
            && (IsGzip(resp1) && codecs.decompress(resp1.body.data).None? ==> r == Err(GzipError))
            && (IsGzip(resp1) && codecs.decompress(resp1.body.data).Some? ==>
                  (codecs.decode(codecs.decompress(resp1.body.data).value).None? ==> r == Err(UnicodeDecodeError)))
            && (!IsGzip(resp1) && codecs.decode(resp1.body.data).None? ==> r == Err(UnicodeDecodeError))
  {
  }

  /** A request whose toolbar was torn down gets its response back untouched. */
  lemma TeardownThenUntouched<S, R, V>(store: Store<S, R>, req: R, resp: Response, interceptRedirects: bool,
                                           codecs: Codecs, renderRedirect: (string, int) -> string,
                                           render: Toolbar<S> -> string, hooks: Hooks<S, R, V>)
    ensures ProcessResponse(Teardown(store, req), req, resp, interceptRedirects, codecs, renderRedirect, render, hooks)
            == Ok(Outcome(resp, Teardown(store, req), false))
  {
  }

  /** A request for which the toolbar was not shown keeps its view and its
      response, however the panels' hooks behave. */
  lemma NotShownUntouched<S, R, V>(req: R, created: Toolbar<S>, view: V, kwargs: map<string, string>,
                                       resp: Response, interceptRedirects: bool, codecs: Codecs,
                                       renderRedirect: (string, int) -> string,
                                       render: Toolbar<S> -> string, hooks: Hooks<S, R, V>)
    ensures var store := ProcessRequest(map[], req, false, created, hooks);
            && ProcessView(store, req, view, kwargs, hooks).0 == view
            && ProcessResponse(store, req, resp, interceptRedirects, codecs, renderRedirect, render, hooks)
               == Ok(Outcome(resp, store, false))
  {
  }

  /** `teardown_request`: the request's toolbar is dropped, if it had one. */
  function Teardown<S, R(==)>(store: Store<S, R>, req: R): (r: Store<S, R>)
    ensures req !in r
    ensures r.Keys == store.Keys - {req}
    ensures forall q :: q in r ==> r[q] == store[q]
  {
    store - {req}
  }
}
