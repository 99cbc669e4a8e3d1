/** The older `flaskext.debugtoolbar` package: the extension object
    (flaskext/debugtoolbar/__init__.py) and its per-request toolbar
    (flaskext/debugtoolbar/toolbar.py).  It shares `replace_insensitive`,
    the redirect codes and the `process_view` fold with the current
    extension, but shows the toolbar on every path outside its own routes,
    keeps every request's toolbar, decorates only status 200 responses and
    loads a fixed list of panels with no skipping. */
module LegacyExtension {
  import opened Text
  import opened Results
  import opened Panels
  import opened Registry
  import Extension

  /** The URL prefixes the constructor registers for the toolbar's own views
      and static files. */
  const ViewsPrefix: string := "/_debug_toolbar/views"
  const StaticRule: string := "/_debug_toolbar/static/<path:filename>"

  /** `_show_toolbar` tests the request path against this. */
  const OwnPrefix: string := "/_debug_toolbar/"

  /** What the constructor leaves behind: whether the request hooks were
      registered, and the URL rules it added. */
  datatype Setup = Setup(hooksRegistered: bool, rules: seq<string>)

  /** `DebugToolbarExtension(app)`: a non-debug application gets nothing; a
      debug one without a truthy `SECRET_KEY` is refused. */
  function Construct(debug: bool, config: Extension.Config): (r: Result<Setup>)
    ensures r.Err? <==> debug && !Extension.HasSecretKey(config)
    ensures r.Err? ==> r.error.RuntimeError?
    ensures r.Ok? ==> (r.value.hooksRegistered <==> debug)
    ensures r.Ok? && !debug ==> r.value.rules == []
    ensures r.Ok? ==> forall i :: 0 <= i < |r.value.rules| ==> StartsWith(r.value.rules[i], OwnPrefix)
  {
    if !debug then Ok(Setup(false, []))
    else if !Extension.HasSecretKey(config) then
      Err(RuntimeError("The Flask-DebugToolbar requires the 'SECRET_KEY' config var to be set"))
    else
      assert StartsWith(ViewsPrefix, OwnPrefix) && StartsWith(StaticRule, OwnPrefix);
      Ok(Setup(true, [ViewsPrefix, StaticRule]))
  }

  /** `_show_toolbar`: every path outside the toolbar's own routes. */
  function ShowToolbar(path: string): (r: bool)
    ensures !r <==> |path| >= |OwnPrefix| && path[..|OwnPrefix|] == OwnPrefix
  {
    !StartsWith(path, OwnPrefix)
  }

  /** The toolbar is never shown on a page served under one of the routes
      the constructor registers, including the views module's pages. */
  lemma OwnRoutesHidden(debug: bool, config: Extension.Config, i: nat, rest: string)
    requires Construct(debug, config).Ok?
    requires i < |Construct(debug, config).value.rules|
    ensures !ShowToolbar(Construct(debug, config).value.rules[i] + rest)
  {
    var rule := Construct(debug, config).value.rules[i];
    assert (rule + rest)[..|OwnPrefix|] == rule[..|OwnPrefix|];
  }

  /** The prefix test is on the whole segment: a path that merely begins with
      the package name still shows the toolbar. */
  lemma SegmentNotName(p: string)
    requires StartsWith(p, "/_debug_toolbar") && |p| > 15 && p[15] != '/'
    ensures ShowToolbar(p)
  {
    assert p[15] != OwnPrefix[15];
  }

  /** `process_request`: a shown request gets a fresh toolbar whose panels
      have run their hook; the toolbars of earlier requests stay. */
  function ProcessRequest<S, R(==)>(store: Extension.Store<S, R>, req: R, path: string, created: Toolbar<S>,
                                    onRequest: (Panel<S>, R) -> Panel<S>)
    : (r: Extension.Store<S, R>)
    ensures !ShowToolbar(path) ==> r == store
    ensures ShowToolbar(path) ==> r.Keys == store.Keys + {req}
    ensures ShowToolbar(path) ==> r[req].templateContext == created.templateContext && |r[req].panels| == |created.panels|
    ensures ShowToolbar(path) ==> forall i :: 0 <= i < |created.panels| ==> r[req].panels[i] == onRequest(created.panels[i], req)
    ensures forall q :: q in store && q != req ==> q in r && r[q] == store[q]
  {
    if !ShowToolbar(path) then store
    else store[req := created.(panels := Extension.RequestHooks(created.panels, req, onRequest))]
  }

  /** Unlike the current extension, which keeps only the running request's
      toolbar, the legacy store only grows: nothing ever removes an entry. */
  lemma StoreOnlyGrows<S, R, V>(store: Extension.Store<S, R>, req: R, path: string, created: Toolbar<S>,
                                hooks: Extension.Hooks<S, R, V>, other: R)
    requires other in store && other != req && ShowToolbar(path)
    ensures other in ProcessRequest(store, req, path, created, hooks.onRequest)
    ensures other !in Extension.ProcessRequest(store, req, true, created, hooks)
  {
  }

  /** `process_view`: the identity without a toolbar; otherwise the panels
      are folded in order, each truthy return replacing the view. */
  function ProcessView<S, R(==), V>(store: Extension.Store<S, R>, req: R, view: V, kwargs: map<string, string>,
                                    onView: (Panel<S>, R, V, map<string, string>) -> (Panel<S>, Option<V>))
    : (r: (V, Extension.Store<S, R>))
    ensures req !in store ==> r == (view, store)
    ensures req in store ==> r.1.Keys == store.Keys && |r.1[req].panels| == |store[req].panels|
    ensures req in store ==> r.1[req].templateContext == store[req].templateContext
    ensures req in store ==>
      (r.1[req].panels, r.0) == Extension.FoldViews(store[req].panels, req, view, kwargs, onView)
    ensures forall q :: q in store && q != req ==> q in r.1 && r.1[q] == store[q]
  {
    if req !in store then (view, store)
    else
      var tb := store[req];
      var (panels, v) := Extension.FoldViews(tb.panels, req, view, kwargs, onView);
      (v, store[req := tb.(panels := panels)])
  }

  /** With panels that keep the default hook, the view is never replaced. */
  lemma DefaultPanelsKeepView<S, R, V>(store: Extension.Store<S, R>, req: R, view: V, kwargs: map<string, string>)
    ensures ProcessView(store, req, view, kwargs, DefaultProcessView).0 == view
  {
    if req in store {
      Extension.FoldViewsDefault(store[req].panels, req, view, kwargs);
    }
  }

  /** The response fields the legacy hook reads and writes.  `isSequence` is
      werkzeug's `is_sequence`; `body` is the decoded text of the data. */
  datatype Response = Response(status: int, location: Option<string>, isSequence: bool, body: string)

  const Tag: string := "</body>"

  predicate Redirects(r: Response) {
    r.status in Extension.RedirectCodes && r.location.Some? && r.location.value != ""
  }

  /** Redirect interception: a redirect with a non-empty target becomes a
      200 page, held as a list and so a sequence, linking to it. */
  function InterceptRedirect(r: Response, renderRedirect: (string, int) -> string): (out: Response)
    ensures !Redirects(r) ==> out == r
    ensures Redirects(r) ==> out.status == 200 && out.location.None? && out.isSequence
    ensures Redirects(r) ==> out.body == renderRedirect(r.location.value, r.status)
  {
    if Redirects(r) then
      r.(status := 200, location := None, isSequence := true, body := renderRedirect(r.location.value, r.status))
    else r
  }

  /** `process_response` as written: for a request with a toolbar, the first
      thing read is `config` on the toolbar object, which the legacy
      `DebugToolbar` does not have. */
  function ProcessResponseAsWritten<S, R(==)>(store: Extension.Store<S, R>, req: R, resp: Response)
    : (r: Result<(Response, Extension.Store<S, R>)>)
    ensures req !in store ==> r == Ok((resp, store))
    ensures req in store ==> r == Err(AttributeError)
  {
    if req !in store then Ok((resp, store)) else Err(AttributeError)
  }

  /** Every request that shows the toolbar fails in `process_response`,
      whatever its response. */
  lemma ShownRequestFailsAsWritten<S, R>(store: Extension.Store<S, R>, req: R, path: string, created: Toolbar<S>,
                                             onRequest: (Panel<S>, R) -> Panel<S>, resp: Response)
    requires ShowToolbar(path)
    ensures ProcessResponseAsWritten(ProcessRequest(store, req, path, created, onRequest), req, resp) == Err(AttributeError)
  {
  }

  /** `process_response` as intended, reading the interception flag from the
      application's configuration: redirects may be intercepted; a 200
      response runs every panel's hook and, when its body is a sequence, gets
      the rendered toolbar before its last `</body>`. */
  function ProcessResponse<S, R(==)>(store: Extension.Store<S, R>, req: R, resp: Response, interceptRedirects: bool,
                                     renderRedirect: (string, int) -> string, render: Toolbar<S> -> string,
                                     onResponse: (Panel<S>, R, Response) -> Panel<S>)
    : (r: (Response, Extension.Store<S, R>))
    ensures req !in store ==> r == (resp, store)
    ensures r.1.Keys == store.Keys
    ensures forall q :: q in store && q != req ==> r.1[q] == store[q]
    ensures req in store ==>
      var resp1 := if interceptRedirects then InterceptRedirect(resp, renderRedirect) else resp;
      && r.0.status == resp1.status && r.0.location == resp1.location && r.0.isSequence == resp1.isSequence
      && (resp1.status != 200 ==> r == (resp1, store))
      && (resp1.status == 200 ==>
            && r.1[req].templateContext == store[req].templateContext
            && r.1[req].panels == Extension.ResponseHooks(store[req].panels, req, resp1, onResponse)
            && (!resp1.isSequence ==> r.0 == resp1)
            && (resp1.isSequence ==>
                  r.0.body == Extension.ReplaceInsensitive(resp1.body, Tag, render(r.1[req]) + Tag)))
  {
    if req !in store then (resp, store)
    else
      var resp1 := if interceptRedirects then InterceptRedirect(resp, renderRedirect) else resp;
      if resp1.status != 200 then (resp1, store)
      else
        var tb := store[req];
        var tb' := tb.(panels := Extension.ResponseHooks(tb.panels, req, resp1, onResponse));
        var store' := store[req := tb'];
        if resp1.isSequence then
          (resp1.(body := Extension.ReplaceInsensitive(resp1.body, Tag, render(tb') + Tag)), store')
        else (resp1, store')
  }

  /** The injected body is the old one with the toolbar inserted before its
      last `</body>`: the text before the tag is kept, the tag itself comes
      back lower-case (equal up to case), and the text after it is kept.
      Without a tag the body is unchanged. */
  lemma InjectionKeepsText<S, R>(store: Extension.Store<S, R>, req: R, resp: Response, interceptRedirects: bool,
                                renderRedirect: (string, int) -> string, render: Toolbar<S> -> string,
                                onResponse: (Panel<S>, R, Response) -> Panel<S>)
    requires req in store
    requires var resp1 := if interceptRedirects then InterceptRedirect(resp, renderRedirect) else resp;
             resp1.status == 200 && resp1.isSequence
    ensures var resp1 := if interceptRedirects then InterceptRedirect(resp, renderRedirect) else resp;
            var (out, store') := ProcessResponse(store, req, resp, interceptRedirects, renderRedirect, render, onResponse);
            Spliced(resp1.body, render(store'[req]), out.body)
  {
    var resp1 := if interceptRedirects then InterceptRedirect(resp, renderRedirect) else resp;
    var (out, store') := ProcessResponse(store, req, resp, interceptRedirects, renderRedirect, render, onResponse);
    ReplaceSplices(resp1.body, render(store'[req]));
  }

  /** `out` is `s` with `toolbar` inserted before the last case-insensitive
      `</body>` and that tag lower-cased, or `s` itself without a tag. */
  ghost predicate Spliced(s: string, toolbar: string, out: string) {
    var i := RFindInsensitive(s, Tag);
    && (i < 0 ==> out == s)
    && (i >= 0 ==>
          && |out| == |s| + |toolbar|
          && out[..i] == s[..i]
          && out[i..i + |toolbar|] == toolbar
          && out[i + |toolbar|..i + |toolbar| + |Tag|] == Tag
          && Lower(s[i..i + |Tag|]) == Tag
          && out[i + |toolbar| + |Tag|..] == s[i + |Tag|..])
  }

  /** Replacing the last `</body>` by `toolbar + "</body>"` splices. */
  lemma ReplaceSplices(s: string, toolbar: string)
    ensures Spliced(s, toolbar, Extension.ReplaceInsensitive(s, Tag, toolbar + Tag))
  {
    var out := Extension.ReplaceInsensitive(s, Tag, toolbar + Tag);
    var i := RFindInsensitive(s, Tag);
    if i < 0 {
      assert out == s;
    } else {
      assert IsLastCiMatch(s, Tag, i);
      assert out == s[..i] + toolbar + Tag + s[i + |Tag|..] by {
        assert out == s[..i] + (toolbar + Tag) + s[i + |Tag|..];
      }
      assert Lower(s[i..i + |Tag|]) == Tag by {
        assert CiOccursAt(s, Tag, i);
        LowerTag();
      }
      SplicedAt(s, toolbar, out, i);
    }
  }

  lemma LowerTag()
    ensures Lower(Tag) == Tag
  {
    assert Lower(Tag) == Tag;
  }

  lemma SplicedAt(s: string, toolbar: string, out: string, i: int)
    requires i == RFindInsensitive(s, Tag) && i >= 0
    requires out == s[..i] + toolbar + Tag + s[i + |Tag|..]
    requires Lower(s[i..i + |Tag|]) == Tag
    ensures Spliced(s, toolbar, out)
  {
    ConcatSlices(s[..i], toolbar, Tag, s[i + |Tag|..]);
  }

  /** The four parts of a concatenation read back by their offsets. */
  lemma ConcatSlices(a: string, b: string, c: string, d: string)
    ensures var o := a + b + c + d;
            && |o| == |a| + |b| + |c| + |d|
            && o[..|a|] == a
            && o[|a|..|a| + |b|] == b
            && o[|a| + |b|..|a| + |b| + |c|] == c
            && o[|a| + |b| + |c|..] == d
  {
  }

  /** A redirect that is intercepted becomes a 200 response, so the panels
      run and a redirect page with a `</body>` gets the toolbar. */
  lemma InterceptedRedirectDecorated<S, R>(store: Extension.Store<S, R>, req: R, resp: Response,
                                               renderRedirect: (string, int) -> string, render: Toolbar<S> -> string,
                                               onResponse: (Panel<S>, R, Response) -> Panel<S>)
    requires req in store && Redirects(resp)
    ensures var (out, store') := ProcessResponse(store, req, resp, true, renderRedirect, render, onResponse);
            var page := renderRedirect(resp.location.value, resp.status);
            && out.status == 200 && out.location.None?
            && store'[req].panels == Extension.ResponseHooks(store[req].panels, req, InterceptRedirect(resp, renderRedirect), onResponse)
            && out.body == Extension.ReplaceInsensitive(page, Tag, render(store'[req]) + Tag)
  {
  }

  // flaskext/debugtoolbar/toolbar.py

  /** `default_panels`: the seven panels every legacy toolbar loads. */
  const PanelPackage: string := "flaskext.debugtoolbar.panels."

  const DefaultPanels: seq<string> := [
    PanelPackage + "versions.VersionDebugPanel",
    PanelPackage + "timer.TimerDebugPanel",
    PanelPackage + "headers.HeaderDebugPanel",
    PanelPackage + "request_vars.RequestVarsDebugPanel",
    PanelPackage + "template.TemplateDebugPanel",
    PanelPackage + "sqlalchemy.SQLAlchemyDebugPanel",
    PanelPackage + "logger.LoggingPanel"
  ]

  /** One path of `load_panels`: split at the last dot (ValueError without
      one), `__import__` the module (ImportError when it is missing), then
      `getattr` the class (AttributeError when it is missing). */
  function Resolve<S>(mods: Modules<S>, path: string): (r: Result<PanelClass<S>>)
    ensures r.Ok? ==> SplitPath(path).Ok? && ImportAttr(mods, path) == Some(r.value)
    ensures r.Err? ==> r.error in {ValueError, ImportError, AttributeError}
    ensures ImportAttr(mods, path).Some? ==> r == Ok(ImportAttr(mods, path).value)
  {
    match SplitPath(path)
    case Err(e) => Err(e)
    case Ok((m, c)) =>
      if m !in mods then Err(ImportError)
      else if c !in mods[m] then Err(AttributeError)
      else Ok(mods[m][c])
  }

  /** A fresh instance of a class: inactive, with the class's state. */
  function Fresh<S>(cls: PanelClass<S>): (p: Panel<S>)
    ensures p.name == cls.name && p.data == cls.initial && !p.isActive
  {
    Panel(cls.name, false, cls.initial)
  }

  /** `load_panels`: one panel per path, in order, with no skipping; the
      first path that fails to resolve aborts the whole toolbar with its
      error. */
  function LoadPanels<S>(mods: Modules<S>, paths: seq<string>): (r: Result<seq<Panel<S>>>)
    ensures r.Ok? <==> forall i :: 0 <= i < |paths| ==> Resolve(mods, paths[i]).Ok?
    ensures r.Ok? ==> |r.value| == |paths|
    ensures r.Ok? ==>
      forall i :: 0 <= i < |paths| ==> r.value[i] == Fresh(Resolve(mods, paths[i]).value)
    ensures r.Err? ==>
      exists i :: 0 <= i < |paths| && Resolve(mods, paths[i]) == Err(r.error) &&
                  forall j :: 0 <= j < i ==> Resolve(mods, paths[j]).Ok?
    decreases |paths|
  {
    if |paths| == 0 then Ok([])
    else
      match Resolve(mods, paths[0])
      case Err(e) => Err(e)
      case Ok(cls) =>
        match LoadPanels(mods, paths[1..])
        case Err(e) =>
          ghost var k :| 0 <= k < |paths[1..]| && Resolve(mods, paths[1..][k]) == Err(e) &&
            forall j :: 0 <= j < k ==> Resolve(mods, paths[1..][j]).Ok?;
          assert Resolve(mods, paths[k + 1]) == Err(e);
          assert forall j :: 1 <= j < k + 1 ==> paths[j] == paths[1..][j - 1];
          Err(e)
        case Ok(rest) =>
          assert forall i :: 1 <= i < |paths| ==> paths[i] == paths[1..][i - 1];
          Ok([Fresh(cls)] + rest)
  }

  /** Every default path has a dot, so loading the defaults never fails
      with ValueError. */
  lemma DefaultPathsSplit(i: nat)
    requires i < |DefaultPanels|
    ensures SplitPath(DefaultPanels[i]).Ok?
  {
    var p := DefaultPanels[i];
    assert PanelPackage[8] == '.';
    assert p[8] == PanelPackage[8];
  }

  /** `DebugToolbar(request, jinja_env)`: the toolbar's context holds the
      static path, and its panels are the loaded defaults. */
  function NewToolbar<S>(mods: Modules<S>, staticPath: string): (r: Result<Toolbar<S>>)
    ensures r.Ok? <==> LoadPanels(mods, DefaultPanels).Ok?
    ensures r.Ok? ==> r.value.templateContext == map["static_path" := staticPath]
    ensures r.Ok? ==> |r.value.panels| == 7 && forall i :: 0 <= i < 7 ==> !r.value.panels[i].isActive
  {
    match LoadPanels(mods, DefaultPanels)
    case Err(e) => Err(e)
    case Ok(panels) => Ok(Toolbar(panels, map["static_path" := staticPath]))
  }
}
