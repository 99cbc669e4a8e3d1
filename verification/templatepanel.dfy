/** The template panel (src/flask_debugtoolbar/panels/template.py, and the
    older flask_debugtoolbar/panels/template.py).  Each panel instance has a
    key and a list of render records; the class-level `template_cache` is a
    deque of at most five `(key, list)` pairs through which the template
    editor views find a request's renders.

    The deque holds the panel's own list object, so renders recorded after
    the key was cached are visible through the cache.  The model keeps that
    sharing explicit: the cache holds keys, and `lists` maps every panel key
    to its one list. */
module TemplatePanel {
  import opened Text
  import opened Results

  const CacheSize: nat := 5

  datatype TemplateState<R> = TemplateState(cache: seq<string>, lists: map<string, seq<R>>)

  /** The state the code keeps: a bounded cache of distinct keys, each the key
      of a panel that has recorded at least one render. */
  ghost predicate Valid<R>(st: TemplateState<R>) {
    && |st.cache| <= CacheSize
    && (forall i, j :: 0 <= i < j < |st.cache| ==> st.cache[i] != st.cache[j])
    && (forall i :: 0 <= i < |st.cache| ==> st.cache[i] in st.lists && |st.lists[st.cache[i]]| > 0)
  }

  /** `deque(maxlen=5).append(x)`: the last five of the old entries and `x`. */
  function BoundedAppend<T>(q: seq<T>, x: T): (r: seq<T>)
    requires |q| <= CacheSize
    ensures |r| == if |q| < CacheSize then |q| + 1 else CacheSize
    ensures r == (q + [x])[|q| + 1 - |r|..]
    ensures |q| == CacheSize ==> r == q[1..] + [x]
  {
    if |q| < CacheSize then q + [x] else q[1..] + [x]
  }

  /** The class-level cache before any panel exists. */
  function InitialState<R>(): (st: TemplateState<R>)
    ensures Valid(st) && |st.cache| == 0
  {
    TemplateState([], map[])
  }

  /** `__init__`: a new panel with a fresh key and an empty list.  The key is a
      random UUID, so it is taken as new. */
  function NewPanel<R>(st: TemplateState<R>, key: string): (r: TemplateState<R>)
    requires key !in st.lists
    ensures r.cache == st.cache
    ensures r.lists.Keys == st.lists.Keys + {key} && r.lists[key] == []
    ensures forall k :: k in st.lists ==> r.lists[k] == st.lists[k]
  {
    TemplateState(st.cache, st.lists[key := []])
  }

  /** `_store_template_info`: the key is cached on the panel's first render
      when the editor is enabled, then the render is appended to its list. */
  function StoreTemplateInfo<R>(st: TemplateState<R>, key: string, editorEnabled: bool, info: R): (r: TemplateState<R>)
    requires key in st.lists
    requires |st.cache| <= CacheSize
    ensures r.lists == st.lists[key := st.lists[key] + [info]]
    ensures |st.lists[key]| == 0 && editorEnabled ==> r.cache == BoundedAppend(st.cache, key)
    ensures |st.lists[key]| > 0 || !editorEnabled ==> r.cache == st.cache
  {
    var cache := if |st.lists[key]| == 0 && editorEnabled then BoundedAppend(st.cache, key) else st.cache;
    TemplateState(cache, st.lists[key := st.lists[key] + [info]])
  }

  /** Storing a render keeps the cache bounded, its keys distinct and each
      cached list non-empty. */
  lemma StoreKeepsValid<R>(st: TemplateState<R>, key: string, editorEnabled: bool, info: R)
    requires Valid(st) && key in st.lists
    ensures Valid(StoreTemplateInfo(st, key, editorEnabled, info))
  {
    var r := StoreTemplateInfo(st, key, editorEnabled, info);
    if |st.lists[key]| == 0 && editorEnabled {
      assert key !in st.cache;
      var q := st.cache + [key];
      assert forall i, j :: 0 <= i < j < |q| ==> q[i] != q[j];
      assert r.cache == q[|q| - |r.cache|..];
    }
  }

  /** A new panel keeps the state valid. */
  lemma NewPanelKeepsValid<R>(st: TemplateState<R>, key: string)
    requires Valid(st) && key !in st.lists
    ensures Valid(NewPanel(st, key))
  {
  }

  /** `get_cache_for_key`: the list of the first cached entry with the key,
      or `KeyError`. */
  function GetCacheForKey<R>(st: TemplateState<R>, key: string): (r: Result<seq<R>>)
    requires Valid(st)
    ensures r.Err? <==> key !in st.cache
    ensures r.Err? ==> r.error == KeyError
    ensures r.Ok? ==> key in st.lists && r.value == st.lists[key] && |r.value| > 0
  {
    Find(st, key, 0)
  }

  function Find<R>(st: TemplateState<R>, key: string, i: nat): (r: Result<seq<R>>)
    requires Valid(st) && i <= |st.cache|
    ensures r.Err? <==> key !in st.cache[i..]
    ensures r.Err? ==> r.error == KeyError
    ensures r.Ok? ==> key in st.lists && r.value == st.lists[key] && |r.value| > 0
    decreases |st.cache| - i
  {
    if i == |st.cache| then Err(KeyError)
    else if st.cache[i] == key then Ok(st.lists[key])
    else
      assert st.cache[i..] == [st.cache[i]] + st.cache[i + 1..];
      Find(st, key, i + 1)
  }

  /** A render recorded after the panel's key was cached is seen through the
      cache: the list found ends with it. */
  lemma LaterRendersVisible<R>(st: TemplateState<R>, key: string, editorEnabled: bool, info: R)
    requires Valid(st) && key in st.cache
    ensures var r := StoreTemplateInfo(st, key, editorEnabled, info);
            Valid(r) && GetCacheForKey(r, key) == Ok(st.lists[key] + [info])
  {
    StoreKeepsValid(st, key, editorEnabled, info);
  }

  /** The first render with the editor enabled makes the key findable, and
      the list found holds exactly that render. */
  lemma FirstRenderCaches<R>(st: TemplateState<R>, key: string, info: R)
    requires Valid(st) && key in st.lists && st.lists[key] == []
    ensures var r := StoreTemplateInfo(st, key, true, info);
            Valid(r) && GetCacheForKey(r, key) == Ok([info])
  {
    StoreKeepsValid(st, key, true, info);
    var r := StoreTemplateInfo(st, key, true, info);
    var q := BoundedAppend(st.cache, key);
    assert r.cache == q;
    assert q[|q| - 1] == key;
    assert key in r.cache;
    assert r.lists[key] == [] + [info] == [info];
  }

  /** With the editor disabled the cache never changes. */
  lemma DisabledNeverCaches<R>(st: TemplateState<R>, key: string, info: R)
    requires key in st.lists && |st.cache| <= CacheSize
    ensures StoreTemplateInfo(st, key, false, info).cache == st.cache
  {
  }

  /** Caching a sixth key evicts the oldest one. */
  lemma FullCacheEvictsOldest<R>(st: TemplateState<R>, key: string, info: R)
    requires Valid(st) && |st.cache| == CacheSize && key in st.lists && st.lists[key] == []
    ensures var r := StoreTemplateInfo(st, key, true, info);
            GetCacheForKey(r, st.cache[0]).Err? && r.cache == st.cache[1..] + [key]
  {
    StoreKeepsValid(st, key, true, info);
    var r := StoreTemplateInfo(st, key, true, info);
    assert key !in st.cache;
    assert st.cache[0] !in st.cache[1..];
  }

  /** `nav_subtitle`: the number of renders. */
  function NavSubtitle(count: nat): (r: string)
    ensures StartsWith(r, NatToString(count)) && EndsWith(r, " rendered")
    ensures |r| == |NatToString(count)| + 9
  {
    NatToString(count) + " rendered"
  }

  /** `require_enabled`. */
  function RequireEnabled(editorEnabled: bool): (r: Result<()>)
    ensures r.Err? <==> !editorEnabled
    ensures r.Err? ==> r.error == Abort(403)
  {
    if editorEnabled then Ok(()) else Err(Abort(403))
  }

  /** The renders `template_editor` lists for a key: the enabled check comes
      first, then the cache lookup. */
  function EditorRenders<R>(st: TemplateState<R>, editorEnabled: bool, key: string): (r: Result<seq<R>>)
    requires Valid(st)
    ensures !editorEnabled ==> r == Err(Abort(403))
    ensures editorEnabled && key !in st.cache ==> r == Err(KeyError)
    ensures editorEnabled && key in st.cache ==> r == Ok(st.lists[key])
  {
    match RequireEnabled(editorEnabled)
    case Err(e) => Err(e)
    case Ok(_) => GetCacheForKey(st, key)
  }

  /** The render `save_template` and `template_preview` work on: the first
      one recorded for the key. */
  function FirstRender<R>(st: TemplateState<R>, editorEnabled: bool, key: string): (r: Result<R>)
    requires Valid(st)
    ensures !editorEnabled ==> r == Err(Abort(403))
    ensures editorEnabled && key !in st.cache ==> r == Err(KeyError)
    ensures editorEnabled && key in st.cache ==> r == Ok(st.lists[key][0])
  {
    match EditorRenders(st, editorEnabled, key)
    case Err(e) => Err(e)
    case Ok(renders) => if |renders| == 0 then Err(IndexError) else Ok(renders[0])
  }

  /** `_get_source` up to the file read: a template without a file name has
      empty source. */
  function GetSource(filename: Option<string>, readFile: string -> string): (r: string)
    ensures filename.None? ==> r == ""
    ensures filename.Some? ==> r == readFile(filename.value)
  {
    match filename
    case None => ""
    case Some(f) => readFile(f)
  }

  /** A panel's renders, recorded one after another from its empty start. */
  function RecordAll<R>(st: TemplateState<R>, key: string, editorEnabled: bool, infos: seq<R>): (r: TemplateState<R>)
    requires key in st.lists && |st.cache| <= CacheSize
    ensures key in r.lists && |r.cache| <= CacheSize
    ensures r.lists.Keys == st.lists.Keys
    ensures forall k :: k in st.lists && k != key ==> r.lists[k] == st.lists[k]
    decreases |infos|
  {
    if |infos| == 0 then st
    else RecordAll(StoreTemplateInfo(st, key, editorEnabled, infos[0]), key, editorEnabled, infos[1..])
  }

  /** Renders are kept in arrival order, so the subtitle counts them all. */
  lemma {:induction false} RecordAllInOrder<R>(st: TemplateState<R>, key: string, editorEnabled: bool, infos: seq<R>)
    requires key in st.lists && |st.cache| <= CacheSize
    ensures RecordAll(st, key, editorEnabled, infos).lists[key] == st.lists[key] + infos
    decreases |infos|
  {
    if |infos| > 0 {
      var next := StoreTemplateInfo(st, key, editorEnabled, infos[0]);
      RecordAllInOrder(next, key, editorEnabled, infos[1..]);
      assert st.lists[key] + infos == st.lists[key] + [infos[0]] + infos[1..];
    }
  }

  // The older flask_debugtoolbar package: no cache, one list per panel.

  /** The older `_store_template_info`; `process_request` and
      `process_response` leave the list alone. */
  function LegacyStore<R>(templates: seq<R>, info: R): (r: seq<R>)
    ensures |r| == |templates| + 1 && r[..|templates|] == templates && r[|templates|] == info
  {
    templates + [info]
  }

  function LegacyRecordAll<R>(templates: seq<R>, infos: seq<R>): seq<R>
    decreases |infos|
  {
    if |infos| == 0 then templates else LegacyRecordAll(LegacyStore(templates, infos[0]), infos[1..])
  }

  /** A panel's list is its earlier renders followed by the new ones, in
      arrival order. */
  lemma {:induction false} LegacyRecordsInOrder<R>(templates: seq<R>, infos: seq<R>)
    ensures LegacyRecordAll(templates, infos) == templates + infos
    decreases |infos|
  {
    if |infos| > 0 {
      LegacyRecordsInOrder(LegacyStore(templates, infos[0]), infos[1..]);
      assert templates + infos == templates + [infos[0]] + infos[1..];
    } else {
      assert templates + infos == templates;
    }
  }

  /** A fresh panel's subtitle counts its renders. */
  lemma LegacySubtitleCounts<R>(infos: seq<R>)
    ensures NavSubtitle(|LegacyRecordAll([], infos)|) == NatToString(|infos|) + " rendered"
  {
    LegacyRecordsInOrder([], infos);
  }
}
