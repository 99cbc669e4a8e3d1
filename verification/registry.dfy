/** Panel discovery and the per-request toolbar (src/flask_debugtoolbar/toolbar.py):
    resolving configured class paths through a process-wide cache, creating
    the panels in configured order, activating them from the `fldt_active`
    cookie, and building the template context the toolbar is rendered with. */
module Registry {
  import opened Text
  import opened Results
  import opened Panels
  import opened Percent

  /** What `import` can see: module name to the classes it defines. */
  type Modules<S> = map<string, map<string, PanelClass<S>>>

  /** `DebugToolbar._cached_panel_classes`: path to class, or `None` for a failed import. */
  type Cache<S> = map<string, Option<PanelClass<S>>>

  /** The toolbar of one request: its panels and its `template_context`. */
  datatype Toolbar<S> = Toolbar(panels: seq<Panel<S>>, templateContext: map<string, string>)

  /** `path.rindex('.')` followed by the split into module and class name. */
  function SplitPath(path: string): (r: Result<(string, string)>)
    ensures r.Err? <==> '.' !in path
    ensures r.Err? ==> r.error == ValueError
    ensures r.Ok? ==> r.value.0 + "." + r.value.1 == path && '.' !in r.value.1
  {
    var dot := LastIndexOf(path, '.');
    if dot < 0 then Err(ValueError)
    else
      assert path == path[..dot] + "." + path[dot + 1..];
      Ok((path[..dot], path[dot + 1..]))
  }

  /** The class named by the part after the last dot, looked up in the module
      named by the part before it: `None` when there is no dot, the module
      does not import, or it does not define the class. */
  function ImportAttr<S>(mods: Modules<S>, path: string): Option<PanelClass<S>> {
    match SplitPath(path)
    case Err(_) => None
    case Ok((m, c)) => if m in mods && c in mods[m] then Some(mods[m][c]) else None
  }

  /** werkzeug's `import_string`: `:` is read as `.`, then the module part
      must import and define the class; every failure is an `ImportError`,
      which `_import_panel` turns into `None`. */
  function ImportString<S>(mods: Modules<S>, path: string): (r: Option<PanelClass<S>>)
    ensures ':' !in path ==> r == ImportAttr(mods, path)
    ensures r.Some? ==> exists m, c :: m in mods && c in mods[m] && r.value == mods[m][c]
  {
    var dotted := ReplaceChar(path, ':', '.');
    var r := ImportAttr(mods, dotted);
    if r.Some? then
      var (m, c) := SplitPath(dotted).value;
      assert m in mods && c in mods[m] && r.value == mods[m][c];
      r
    else r
  }

  /** `_import_panel`: answer from the cache; on a miss import once and cache
      the outcome, a failure as `None`. */
  function ImportPanel<S>(cache: Cache<S>, mods: Modules<S>, path: string)
    : (r: (Option<PanelClass<S>>, Cache<S>))
    ensures path in r.1 && r.1[path] == r.0
    ensures r.1.Keys == cache.Keys + {path}
    ensures forall p :: p in cache ==> r.1[p] == cache[p]
    ensures path !in cache ==> r.0 == ImportString(mods, path)
  {
    if path in cache then (cache[path], cache)
    else
      var cls := ImportString(mods, path);
      (cls, cache[path := cls])
  }

  /** A second lookup of the same path answers from the cache, whatever the
      modules now hold, and leaves the cache as it is. */
  lemma ImportPanelIdempotent<S>(cache: Cache<S>, mods: Modules<S>, later: Modules<S>, path: string)
    ensures var (cls, cache') := ImportPanel(cache, mods, path);
            ImportPanel(cache', later, path) == (cls, cache')
  {
  }

  /** The classes the cache resolves `paths` to, in order, failures left out. */
  function Resolved<S>(cache: Cache<S>, paths: seq<string>): seq<PanelClass<S>>
    requires forall i :: 0 <= i < |paths| ==> paths[i] in cache
  {
    if |paths| == 0 then []
    else
      (match cache[paths[0]] case Some(c) => [c] case None => []) + Resolved(cache, paths[1..])
  }

  /** How many of `paths` the cache resolves. */
  function ResolvedCount<S>(cache: Cache<S>, paths: seq<string>): nat
    requires forall i :: 0 <= i < |paths| ==> paths[i] in cache
  {
    if |paths| == 0 then 0
    else (if cache[paths[0]].Some? then 1 else 0) + ResolvedCount(cache, paths[1..])
  }

  lemma {:induction false} ResolvedLength<S>(cache: Cache<S>, paths: seq<string>)
    requires forall i :: 0 <= i < |paths| ==> paths[i] in cache
    ensures |Resolved(cache, paths)| == ResolvedCount(cache, paths)
    decreases |paths|
  {
    if |paths| > 0 {
      ResolvedLength(cache, paths[1..]);
    }
  }

  /** `_iter_panels`: every configured path is looked up in order; the classes
      that resolve are produced in configured order and the rest skipped. */
  function IterPanels<S>(cache: Cache<S>, mods: Modules<S>, paths: seq<string>)
    : (r: (seq<PanelClass<S>>, Cache<S>))
    ensures forall i :: 0 <= i < |paths| ==> paths[i] in r.1
    ensures forall p :: p in cache ==> p in r.1 && r.1[p] == cache[p]
    ensures r.1.Keys == cache.Keys + set i | 0 <= i < |paths| :: paths[i]
    ensures r.0 == Resolved(r.1, paths)
    decreases |paths|
  {
    if |paths| == 0 then ([], cache)
    else
      var first := ImportPanel(cache, mods, paths[0]);
      var rest := IterPanels(first.1, mods, paths[1..]);
      assert forall i :: 1 <= i < |paths| ==> paths[i] == paths[1..][i - 1];
      PathSetCons(paths);
      assert rest.1[paths[0]] == first.0;
      ((match first.0 case Some(c) => [c] case None => []) + rest.0, rest.1)
  }

  lemma PathSetCons(paths: seq<string>)
    requires |paths| > 0
    ensures (set i | 0 <= i < |paths| :: paths[i]) == {paths[0]} + set i | 0 <= i < |paths[1..]| :: paths[1..][i]
  {
    assert forall i :: 1 <= i < |paths| ==> paths[i] == paths[1..][i - 1];
  }

  /** A path missing from the cache is cached with the outcome of its import. */
  lemma {:induction false} IterPanelsImports<S>(cache: Cache<S>, mods: Modules<S>, paths: seq<string>)
    ensures forall i :: 0 <= i < |paths| && paths[i] !in cache ==>
      IterPanels(cache, mods, paths).1[paths[i]] == ImportString(mods, paths[i])
    decreases |paths|
  {
    if |paths| > 0 {
      var (cls, cache1) := ImportPanel(cache, mods, paths[0]);
      IterPanelsImports(cache1, mods, paths[1..]);
      forall i | 0 <= i < |paths| && paths[i] !in cache
        ensures IterPanels(cache, mods, paths).1[paths[i]] == ImportString(mods, paths[i])
      {
        if paths[i] == paths[0] {
          assert cache1[paths[0]] == ImportString(mods, paths[0]);
        } else {
          assert paths[1..][i - 1] == paths[i];
        }
      }
    }
  }

  /** `load_panels`: `init_app` is called on each resolvable class, in configured
      order, once per configured path; the result is the sequence of classes
      whose `init_app` ran. */
  function LoadPanels<S>(cache: Cache<S>, mods: Modules<S>, paths: seq<string>)
    : (r: (seq<PanelClass<S>>, Cache<S>))
    ensures forall i :: 0 <= i < |paths| ==> paths[i] in r.1
    ensures r.0 == Resolved(r.1, paths)
    ensures |r.0| == ResolvedCount(r.1, paths) <= |paths|
    ensures forall i :: 0 <= i < |paths| && r.1[paths[i]].Some? ==> r.1[paths[i]].value in r.0
    ensures forall j :: 0 <= j < |r.0| ==> FromSomePath(r.1, paths, r.0[j])
  {
    var (classes, cache') := IterPanels(cache, mods, paths);
    ResolvedLength(cache', paths);
    ResolvedCountBound(cache', paths);
    ResolvedMembers(cache', paths);
    (classes, cache')
  }

  lemma {:induction false} ResolvedCountBound<S>(cache: Cache<S>, paths: seq<string>)
    requires forall i :: 0 <= i < |paths| ==> paths[i] in cache
    ensures ResolvedCount(cache, paths) <= |paths|
    decreases |paths|
  {
    if |paths| > 0 {
      ResolvedCountBound(cache, paths[1..]);
    }
  }

  lemma ResolvedMembers<S>(cache: Cache<S>, paths: seq<string>)
    requires forall i :: 0 <= i < |paths| ==> paths[i] in cache
    ensures forall i :: 0 <= i < |paths| && cache[paths[i]].Some? ==> cache[paths[i]].value in Resolved(cache, paths)
    ensures forall j :: 0 <= j < |Resolved(cache, paths)| ==> FromSomePath(cache, paths, Resolved(cache, paths)[j])
  {
    ResolvedComplete(cache, paths);
    forall j | 0 <= j < |Resolved(cache, paths)| ensures FromSomePath(cache, paths, Resolved(cache, paths)[j]) {
      ResolvedSound(cache, paths, j);
    }
  }

  /** Some configured path is cached as `c`. */
  ghost predicate FromSomePath<S>(cache: Cache<S>, paths: seq<string>, c: PanelClass<S>) {
    exists i :: 0 <= i < |paths| && paths[i] in cache && cache[paths[i]] == Some(c)
  }

  lemma {:induction false} ResolvedComplete<S>(cache: Cache<S>, paths: seq<string>)
    requires forall i :: 0 <= i < |paths| ==> paths[i] in cache
    ensures forall i :: 0 <= i < |paths| && cache[paths[i]].Some? ==> cache[paths[i]].value in Resolved(cache, paths)
    decreases |paths|
  {
    if |paths| > 0 {
      ResolvedComplete(cache, paths[1..]);
      var head := match cache[paths[0]] case Some(c) => [c] case None => [];
      assert Resolved(cache, paths) == head + Resolved(cache, paths[1..]);
      forall i | 0 <= i < |paths| && cache[paths[i]].Some?
        ensures cache[paths[i]].value in Resolved(cache, paths)
      {
        if i > 0 {
          assert paths[1..][i - 1] == paths[i];
        }
      }
    }
  }

  lemma {:induction false} ResolvedSound<S>(cache: Cache<S>, paths: seq<string>, j: nat)
    requires forall i :: 0 <= i < |paths| ==> paths[i] in cache
    requires j < |Resolved(cache, paths)|
    ensures FromSomePath(cache, paths, Resolved(cache, paths)[j])
    decreases |paths|
  {
    var head := match cache[paths[0]] case Some(c) => [c] case None => [];
    var tail := Resolved(cache, paths[1..]);
    assert Resolved(cache, paths) == head + tail;
    if j < |head| {
      assert cache[paths[0]] == Some(Resolved(cache, paths)[j]);
    } else {
      ResolvedSound(cache, paths[1..], j - |head|);
      var k :| 0 <= k < |paths[1..]| && paths[1..][k] in cache && cache[paths[1..][k]] == Some(tail[j - |head|]);
      assert paths[1..][k] == paths[k + 1];
      assert cache[paths[k + 1]] == Some(Resolved(cache, paths)[j]);
    }
  }

  /** `unquote(request.cookies.get("fldt_active", "")).split(";")`. */
  function Activation(cookie: Option<string>): (r: seq<string>)
    ensures cookie == None ==> r == [""]
    ensures |r| >= 1 && forall i :: 0 <= i < |r| ==> ';' !in r[i]
  {
    Split(Unquote(cookie.GetOr("")), ';')
  }

  /** Panel `i` is an instance of class `i`, active exactly when its DOM id
      is in the activation list. */
  ghost predicate InstancesOf<S>(panels: seq<Panel<S>>, classes: seq<PanelClass<S>>, activated: seq<string>) {
    |panels| == |classes| &&
    forall i :: 0 <= i < |classes| ==>
      panels[i].name == classes[i].name && panels[i].data == classes[i].initial
      && (panels[i].isActive <==> DomId(classes[i].name) in activated)
  }

  /** `create_panels` after the classes are known: each class is instantiated
      with the toolbar's context and set active exactly when its DOM id is in
      the activation list. */
  function CreatePanels<S>(classes: seq<PanelClass<S>>, activated: seq<string>,
                           shared: map<string, string>, context: map<string, string>)
    : (r: (seq<Panel<S>>, map<string, string>))
    ensures InstancesOf(r.0, classes, activated)
    ensures r.1 == if |classes| == 0 then shared else shared + context
    decreases |classes|
  {
    if |classes| == 0 then ([], shared)
    else
      var first := Instantiate(classes[0], shared, context);
      var p := first.0;
      var p' := if DomId(p.name) in activated then p.(isActive := true) else p;
      MergedMap(shared, context, first.1);
      var rest := CreatePanels(classes[1..], activated, first.1, context);
      UnionTwice(shared, context);
      assert forall i :: 1 <= i < |classes| ==> classes[i] == classes[1..][i - 1];
      ([p'] + rest.0, rest.1)
  }

  /** `DebugToolbar(request)`: the toolbar of a request carrying the given
      `fldt_active` cookie.  Every configured path ends up in the class
      cache; the panels are those of the paths the cache resolves, in
      configured order, each active exactly when the cookie lists its DOM
      id; and the shared panel context gains the static path once any panel
      is created. */
  function NewToolbar<S>(cache: Cache<S>, mods: Modules<S>, paths: seq<string>, cookie: Option<string>,
                         shared: map<string, string>, staticPath: string)
    : (r: (Toolbar<S>, Cache<S>, map<string, string>))
    ensures r.0.templateContext == map["static_path" := staticPath]
    ensures r.1.Keys == cache.Keys + set i | 0 <= i < |paths| :: paths[i]
    ensures forall p :: p in cache ==> r.1[p] == cache[p]
    ensures forall i :: 0 <= i < |paths| && paths[i] !in cache ==> r.1[paths[i]] == ImportString(mods, paths[i])
    ensures InstancesOf(r.0.panels, Resolved(r.1, paths), Activation(cookie))
    ensures r.2 == if |r.0.panels| == 0 then shared else shared["static_path" := staticPath]
  {
    var context := map["static_path" := staticPath];
    var loaded := IterPanels(cache, mods, paths);
    IterPanelsImports(cache, mods, paths);
    var created := CreatePanels(loaded.0, Activation(cookie), shared, context);
    UnionSingleton(shared, "static_path", staticPath);
    (Toolbar(created.0, context), loaded.1, created.1)
  }

  /** The map `Instantiate` leaves is the union of the shared and the given context. */
  lemma MergedMap<V>(shared: map<string, V>, context: map<string, V>, m: map<string, V>)
    requires m.Keys == shared.Keys + context.Keys
    requires forall k :: k in context ==> m[k] == context[k]
    requires forall k :: k in shared && k !in context ==> m[k] == shared[k]
    ensures m == shared + context
  {
  }

  /** Merging the same context twice is merging it once. */
  lemma UnionTwice<V>(m: map<string, V>, c: map<string, V>)
    ensures m + c + c == m + c
  {
  }

  lemma UnionSingleton(m: map<string, string>, k: string, v: string)
    ensures m + map[k := v] == m[k := v]
  {
  }

  /** Without an `fldt_active` cookie the activation list is `[""]`, which no
      DOM id equals, so every panel starts inactive. */
  lemma NoCookieNoActivePanel<S>(cache: Cache<S>, mods: Modules<S>, paths: seq<string>,
                                 shared: map<string, string>, staticPath: string)
    ensures var tb := NewToolbar(cache, mods, paths, None, shared, staticPath).0;
            forall i :: 0 <= i < |tb.panels| ==> !tb.panels[i].isActive
  {
  }

  /** A cookie written by the browser as the percent-encoded `;`-join of ASCII
      DOM ids activates exactly the panels whose ids it lists. */
  lemma CookieRoundTripActivates(ids: seq<string>)
    requires |ids| >= 1
    requires forall i :: 0 <= i < |ids| ==> IsAscii(ids[i]) && ';' !in ids[i]
    ensures Activation(Some(EncodeUriComponent(Join(ids, ';')))) == ids
  {
    JoinAscii(ids, ';');
    UnquoteEncodeRoundTrip(Join(ids, ';'));
    SplitJoin(ids, ';');
  }

  lemma {:induction false} JoinAscii(parts: seq<string>, d: char)
    requires (d as int) < 0x80
    requires forall i :: 0 <= i < |parts| ==> IsAscii(parts[i])
    ensures IsAscii(Join(parts, d))
    decreases |parts|
  {
    if |parts| > 1 {
      JoinAscii(parts[1..], d);
    }
  }

  /** The values `render_toolbar` hands to the template. */
  datatype RenderValue<S> = TextValue(text: string) | PanelList(panels: seq<Panel<S>>)

  /** `render_toolbar`'s context: a copy of `template_context` with `panels`
      added; the toolbar's own `template_context` is not touched. */
  function RenderContext<S>(tb: Toolbar<S>): (r: map<string, RenderValue<S>>)
    ensures r.Keys == tb.templateContext.Keys + {"panels"}
    ensures r["panels"] == PanelList(tb.panels)
    ensures forall k :: k in tb.templateContext && k != "panels" ==> r[k] == TextValue(tb.templateContext[k])
  {
    (map k | k in tb.templateContext :: TextValue(tb.templateContext[k]))["panels" := PanelList(tb.panels)]
  }

}
