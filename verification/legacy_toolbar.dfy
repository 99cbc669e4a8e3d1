/** The per-request toolbar of the intermediate `flask_debugtoolbar` package
    (flask_debugtoolbar/toolbar.py): panels are loaded from the configured
    `DEBUG_TB_PANELS` paths with no cache, a panel whose module does not
    import is meant to be skipped, and activation comes from the
    `fldt_active` cookie exactly as in the current toolbar. */
module LegacyToolbar {
  import opened Text
  import opened Results
  import opened Panels
  import opened Registry
  import opened Percent

  /** One path of `_load_panels` as written: split at the last dot
      (ValueError without one); a failed `__import__` enters the `except`
      branch, whose first act is to read `app`, a name the module never
      defines; a missing class fails `getattr`. */
  function ResolveAsWritten<S>(mods: Modules<S>, path: string): (r: Result<PanelClass<S>>)
    ensures r.Ok? <==> ImportAttr(mods, path).Some?
    ensures r.Ok? ==> r.value == ImportAttr(mods, path).value
    ensures r.Err? ==> r.error in {ValueError, NameError, AttributeError}
  {
    match SplitPath(path)
    case Err(e) => Err(e)
    case Ok((m, c)) =>
      if m !in mods then Err(NameError)
      else if c !in mods[m] then Err(AttributeError)
      else Ok(mods[m][c])
  }

  /** One path of `_load_panels` as intended: a module that does not import
      is logged and skipped (`None`); a dotless path and a missing class
      still fail. */
  function Resolve<S>(mods: Modules<S>, path: string): (r: Result<Option<PanelClass<S>>>)
    ensures r.Ok? ==> r.value == ImportAttr(mods, path)
    ensures r.Err? ==> r.error in {ValueError, AttributeError}
    ensures r == Err(ValueError) <==> '.' !in path
  {
    match SplitPath(path)
    case Err(e) => Err(e)
    case Ok((m, c)) =>
      if m !in mods then Ok(None)
      else if c !in mods[m] then Err(AttributeError)
      else Ok(Some(mods[m][c]))
  }

  /** The two differ only on a path whose module does not import, where the
      intended skip becomes a NameError. */
  lemma ResolveDiffersOnlyOnMissingModule<S>(mods: Modules<S>, path: string)
    ensures ResolveAsWritten(mods, path) == Err(NameError) <==> Resolve(mods, path) == Ok(None)
    ensures Resolve(mods, path) != Ok(None) ==>
      (ResolveAsWritten(mods, path).Ok? <==> Resolve(mods, path).Ok?) &&
      (ResolveAsWritten(mods, path).Ok? ==> Resolve(mods, path).value == Some(ResolveAsWritten(mods, path).value)) &&
      (ResolveAsWritten(mods, path).Err? ==> ResolveAsWritten(mods, path) == Err(Resolve(mods, path).error))
  {
  }

  /** The first `n` paths load without error under the written loader. */
  predicate LoadsUpToAsWritten<S>(mods: Modules<S>, paths: seq<string>, n: nat)
    requires n <= |paths|
  {
    forall j :: 0 <= j < n ==> ResolveAsWritten(mods, paths[j]).Ok?
  }

  /** The first `n` paths load without error under the intended loader. */
  predicate LoadsUpTo<S>(mods: Modules<S>, paths: seq<string>, n: nat)
    requires n <= |paths|
  {
    forall j :: 0 <= j < n ==> Resolve(mods, paths[j]).Ok?
  }

  /** Past a first path that loads, the first `n` load exactly when the
      `n - 1` after it do. */
  lemma LoadsUpToAsWrittenCons<S>(mods: Modules<S>, paths: seq<string>, n: nat)
    requires 1 <= n <= |paths| && ResolveAsWritten(mods, paths[0]).Ok?
    ensures LoadsUpToAsWritten(mods, paths, n) <==> LoadsUpToAsWritten(mods, paths[1..], n - 1)
  {
    assert forall j :: 1 <= j < n ==> paths[j] == paths[1..][j - 1];
  }

  lemma ConsValues<S>(mods: Modules<S>, paths: seq<string>, cls: PanelClass<S>, rest: seq<PanelClass<S>>)
    requires |paths| > 0 && ResolveAsWritten(mods, paths[0]) == Ok(cls)
    requires |rest| == |paths| - 1
    requires forall i :: 0 <= i < |paths[1..]| ==>
      ResolveAsWritten(mods, paths[1..][i]).Ok? && rest[i] == ResolveAsWritten(mods, paths[1..][i]).value
    ensures forall i :: 0 <= i < |paths| ==>
      ResolveAsWritten(mods, paths[i]).Ok? && ([cls] + rest)[i] == ResolveAsWritten(mods, paths[i]).value
  {
    forall i | 1 <= i < |paths|
      ensures ResolveAsWritten(mods, paths[i]).Ok? && ([cls] + rest)[i] == ResolveAsWritten(mods, paths[i]).value
    {
      assert paths[1..][i - 1] == paths[i];
    }
  }

  lemma LoadsUpToCons<S>(mods: Modules<S>, paths: seq<string>, n: nat)
    requires 1 <= n <= |paths| && Resolve(mods, paths[0]).Ok?
    ensures LoadsUpTo(mods, paths, n) <==> LoadsUpTo(mods, paths[1..], n - 1)
  {
    assert forall j :: 1 <= j < n ==> paths[j] == paths[1..][j - 1];
  }

  /** `_load_panels` as written, driven to the end by `create_panels`: the
      classes of every path in order, or the first path's error. */
  function LoadPanelsAsWritten<S>(mods: Modules<S>, paths: seq<string>): (r: Result<seq<PanelClass<S>>>)
    ensures r.Ok? <==> LoadsUpToAsWritten(mods, paths, |paths|)
    ensures r.Ok? ==> |r.value| == |paths|
    ensures r.Ok? ==> forall i :: 0 <= i < |paths| ==> r.value[i] == ResolveAsWritten(mods, paths[i]).value
    ensures r.Err? ==>
      exists i :: 0 <= i < |paths| && ResolveAsWritten(mods, paths[i]) == Err(r.error) &&
                  LoadsUpToAsWritten(mods, paths, i)
    decreases |paths|
  {
    if |paths| == 0 then Ok([])
    else
      match ResolveAsWritten(mods, paths[0])
      case Err(e) => Err(e)
      case Ok(cls) =>
        match LoadPanelsAsWritten(mods, paths[1..])
        case Err(e) =>
          ghost var k :| 0 <= k < |paths[1..]| && ResolveAsWritten(mods, paths[1..][k]) == Err(e) &&
            LoadsUpToAsWritten(mods, paths[1..], k);
          LoadsUpToAsWrittenCons(mods, paths, k + 1);
          assert paths[1..][k] == paths[k + 1];
          Err(e)
        case Ok(rest) =>
          LoadsUpToAsWrittenCons(mods, paths, |paths|);
          ConsValues(mods, paths, cls, rest);
          Ok([cls] + rest)
  }

  /** `_load_panels` as intended: paths whose module does not import are
      skipped, the others yield their class in configured order, and a
      dotless path or a missing class aborts with its error. */
  function LoadPanels<S>(mods: Modules<S>, paths: seq<string>): (r: Result<seq<PanelClass<S>>>)
    ensures r.Ok? <==> LoadsUpTo(mods, paths, |paths|)
    ensures r.Ok? ==> |r.value| <= |paths|
    ensures r.Err? ==>
      exists i :: 0 <= i < |paths| && Resolve(mods, paths[i]) == Err(r.error) && LoadsUpTo(mods, paths, i)
    decreases |paths|
  {
    if |paths| == 0 then Ok([])
    else
      match Resolve(mods, paths[0])
      case Err(e) => Err(e)
      case Ok(cls) =>
        match LoadPanels(mods, paths[1..])
        case Err(e) =>
          ghost var k :| 0 <= k < |paths[1..]| && Resolve(mods, paths[1..][k]) == Err(e) &&
            LoadsUpTo(mods, paths[1..], k);
          LoadsUpToCons(mods, paths, k + 1);
          assert paths[1..][k] == paths[k + 1];
          Err(e)
        case Ok(rest) =>
          LoadsUpToCons(mods, paths, |paths|);
          var head := match cls case Some(c) => [c] case None => [];
          Ok(head + rest)
  }

  /** When every module imports, the intended loader and the written one
      agree. */
  lemma {:induction false} AllModulesImport<S>(mods: Modules<S>, paths: seq<string>)
    requires forall i :: 0 <= i < |paths| ==> Resolve(mods, paths[i]) != Ok(None)
    ensures LoadPanels(mods, paths) == LoadPanelsAsWritten(mods, paths)
    decreases |paths|
  {
    if |paths| > 0 {
      ResolveDiffersOnlyOnMissingModule(mods, paths[0]);
      assert forall i :: 1 <= i < |paths| ==> paths[i] == paths[1..][i - 1];
      AllModulesImport(mods, paths[1..]);
    }
  }

  /** A configured panel whose module is absent: the written loader fails
      with NameError where the intended one skips it. */
  lemma MissingModuleExample<S>(mods: Modules<S>, paths: seq<string>)
    requires mods == map[] && paths == ["missing.Panel"]
    ensures LoadPanelsAsWritten(mods, paths) == Err(NameError)
    ensures LoadPanels(mods, paths) == Ok([])
  {
    assert '.' in paths[0] by { assert paths[0][7] == '.'; }
    assert Resolve(mods, paths[0]) == Ok(None);
    assert ResolveAsWritten(mods, paths[0]) == Err(NameError);
    assert paths[1..] == [];
  }

  /** The intended loader agrees with the current one (`_iter_panels` over
      `_import_panel`) on every configuration without a missing class,
      starting from any cache whose entries match the modules; only the
      current loader reads `:` as `.`, so the paths are taken without it. */
  lemma {:induction false} AgreesWithCurrentLoader<S>(cache: Cache<S>, mods: Modules<S>, paths: seq<string>)
    requires forall p :: p in cache ==> cache[p] == ImportAttr(mods, p)
    requires forall i :: 0 <= i < |paths| ==> Resolve(mods, paths[i]).Ok? && ':' !in paths[i]
    ensures LoadPanels(mods, paths) == Ok(IterPanels(cache, mods, paths).0)
    decreases |paths|
  {
    if |paths| > 0 {
      var (cls, cache1) := ImportPanel(cache, mods, paths[0]);
      assert cls == ImportAttr(mods, paths[0]);
      assert forall p :: p in cache1 ==> cache1[p] == ImportAttr(mods, p);
      assert forall i :: 1 <= i < |paths| ==> paths[i] == paths[1..][i - 1];
      AgreesWithCurrentLoader(cache1, mods, paths[1..]);
    }
  }

  /** `create_panels`: the loaded classes are instantiated in order, and a
      panel is active exactly when its DOM id is in the unquoted,
      `;`-split `fldt_active` cookie (default ""). */
  function CreatePanels<S>(mods: Modules<S>, paths: seq<string>, cookie: Option<string>,
                           shared: map<string, string>, context: map<string, string>)
    : (r: Result<(seq<Panel<S>>, map<string, string>)>)
    ensures r.Ok? <==> LoadPanels(mods, paths).Ok?
    ensures r.Ok? ==> |r.value.0| == |LoadPanels(mods, paths).value| <= |paths|
    ensures r.Ok? ==> forall i :: 0 <= i < |r.value.0| ==>
      (r.value.0[i].isActive <==> DomId(r.value.0[i].name) in Activation(cookie))
    ensures r.Ok? && cookie.None? ==> forall i :: 0 <= i < |r.value.0| ==> !r.value.0[i].isActive
    ensures r.Ok? ==> InstancesOf(r.value.0, LoadPanels(mods, paths).value, Activation(cookie))
    ensures r.Ok? ==> r.value.1 == if |LoadPanels(mods, paths).value| == 0 then shared else shared + context
  {
    match LoadPanels(mods, paths)
    case Err(e) => Err(e)
    case Ok(classes) =>
      var created := Registry.CreatePanels(classes, Activation(cookie), shared, context);
      assert forall i :: 0 <= i < |created.0| ==> DomId(created.0[i].name) != "";
      Ok(created)
  }

  /** A cookie listing DOM ids activates exactly the panels those ids name. */
  lemma CookieActivates<S>(mods: Modules<S>, paths: seq<string>, ids: seq<string>,
                           shared: map<string, string>, context: map<string, string>)
    requires |ids| >= 1
    requires forall i :: 0 <= i < |ids| ==> IsAscii(ids[i]) && ';' !in ids[i]
    requires LoadPanels(mods, paths).Ok?
    ensures var r := CreatePanels(mods, paths, Some(EncodeUriComponent(Join(ids, ';'))), shared, context);
            forall i :: 0 <= i < |r.value.0| ==> (r.value.0[i].isActive <==> DomId(r.value.0[i].name) in ids)
    ensures var r := CreatePanels(mods, paths, Some(EncodeUriComponent(Join(ids, ';'))), shared, context);
            InstancesOf(r.value.0, LoadPanels(mods, paths).value, ids)
  {
    CookieRoundTripActivates(ids);
  }
}
