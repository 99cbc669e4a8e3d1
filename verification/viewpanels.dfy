/** The panels that record which view handled the request: request variables
    (src/flask_debugtoolbar/panels/request_vars.py) and the older settings
    panel (flask_debugtoolbar/panels/settings_vars.py), which also snapshots
    the configuration sorted by key. */
module ViewPanels {
  import opened Text
  import opened Results
  import opened Seqs
  import opened Panels
  import Extension

  /** The view attributes both panels keep; `viewArgs` only exists on the
      settings panel, and is empty on the other. */
  datatype ViewState<V> = ViewState(viewFunc: Option<V>, viewArgs: seq<string>, viewKwargs: map<string, string>)

  /** `process_request`: no view recorded yet. */
  function ResetView<V>(p: Panel<ViewState<V>>): (r: Panel<ViewState<V>>)
    ensures r.data.viewFunc.None? && r.data.viewArgs == [] && r.data.viewKwargs == map[]
    ensures r.name == p.name && r.isActive == p.isActive
  {
    p.(data := ViewState(None, [], map[]))
  }

  /** `process_view`: the view and its arguments are recorded, and `None` is
      returned, so the view is never replaced. */
  function RecordView<R, V>(p: Panel<ViewState<V>>, req: R, view: V, kwargs: map<string, string>)
    : (r: (Panel<ViewState<V>>, Option<V>))
    ensures r.1.None?
    ensures r.0.data.viewFunc == Some(view) && r.0.data.viewKwargs == kwargs
    ensures r.0.data.viewArgs == p.data.viewArgs && r.0.name == p.name && r.0.isActive == p.isActive
  {
    (p.(data := p.data.(viewFunc := Some(view), viewKwargs := kwargs)), None)
  }

  /** Run through the toolbar's `process_view` loop, recording panels leave
      the view alone and each ends up holding it. */
  lemma {:induction false} RecordingKeepsView<R, V>(panels: seq<Panel<ViewState<V>>>, req: R, view: V, kwargs: map<string, string>)
    ensures var (ps, v) := Extension.FoldViews(panels, req, view, kwargs, RecordView);
            v == view && |ps| == |panels| &&
            forall i :: 0 <= i < |ps| ==> ps[i].data.viewFunc == Some(view) && ps[i].data.viewKwargs == kwargs && ps[i].name == panels[i].name
    decreases |panels|
  {
    if |panels| > 0 {
      RecordingKeepsView(panels[1..], req, view, kwargs);
      var (ps, v) := Extension.FoldViews(panels, req, view, kwargs, RecordView);
      var (rest, _) := Extension.FoldViews(panels[1..], req, view, kwargs, RecordView);
      assert ps == [RecordView(panels[0], req, view, kwargs).0] + rest;
    }
  }

  /** The `view_func` entry of the request-variables page: the view's module
      and name, or "[unknown]" when no view was recorded.  `names` gives a
      view's `__module__` and `__name__`. */
  function ViewLabel<V>(viewFunc: Option<V>, names: V -> (string, string)): (r: string)
    ensures r == "[unknown]" <==> viewFunc.None?
    ensures viewFunc.Some? ==> '.' in r
  {
    match viewFunc
    case None => "[unknown]"
    case Some(f) =>
      var r := names(f).0 + "." + names(f).1;
      assert r[|names(f).0|] == '.';
      r
  }

  /** A recorded label splits back, at its last dot, into the module and the
      name (a Python identifier has no dot). */
  lemma ViewLabelSplits<V>(f: V, names: V -> (string, string))
    requires '.' !in names(f).1
    ensures var r := ViewLabel(Some(f), names);
            var i := LastIndexOf(r, '.');
            0 <= i && r[..i] == names(f).0 && r[i + 1..] == names(f).1
  {
    var (m, n) := names(f);
    var r := ViewLabel(Some(f), names);
    assert r == m + "." + n;
    var i := LastIndexOf(r, '.');
    assert r[|m|] == '.';
    assert forall k :: |m| < k < |r| ==> r[k] == n[k - |m| - 1];
    assert '.' in r[|m|..] by { assert r[|m|..][0] == '.'; }
    assert i == |m|;
  }

  /** `view_kwargs or {}`: an empty mapping shows as an empty mapping. */
  function KwargsShown(kwargs: map<string, string>): (r: map<string, string>)
    ensures r == kwargs
  {
    if |kwargs| == 0 then map[] else kwargs
  }

  /** The settings panel's `process_request` snapshot: the configuration's
      items sorted by key. */
  function SettingsSnapshot<V>(items: seq<(string, V)>): (r: seq<(string, V)>)
    ensures SortedByKey(r)
    ensures multiset(r) == multiset(items)
    ensures |r| == |items|
  {
    SortByKey(items)
  }

  /** A dict's items have distinct keys, so the snapshot is strictly
      ascending. */
  lemma SettingsStrictlyAscending<V>(items: seq<(string, V)>)
    requires forall i, j :: 0 <= i < j < |items| ==> items[i].0 != items[j].0
    ensures var r := SettingsSnapshot(items);
            forall i, j :: 0 <= i < j < |r| ==> LexLess(r[i].0, r[j].0)
  {
    var r := SettingsSnapshot(items);
    assert multiset(r) == multiset(items);
    forall i, j | 0 <= i < j < |r| ensures LexLess(r[i].0, r[j].0) {
      assert LexLessEq(r[i].0, r[j].0);
      DistinctPairKeys(items, r, i, j);
    }
  }

  lemma DistinctPairKeys<V>(items: seq<(string, V)>, r: seq<(string, V)>, i: int, j: int)
    requires forall a, b :: 0 <= a < b < |items| ==> items[a].0 != items[b].0
    requires multiset(r) == multiset(items)
    requires 0 <= i < j < |r|
    ensures r[i].0 != r[j].0
  {
    DistinctKeysNoDuplicate(items);
    assert r[i] in multiset(items) && r[j] in multiset(items);
    var a :| 0 <= a < |items| && items[a] == r[i];
    var b :| 0 <= b < |items| && items[b] == r[j];
    var rr := r[..j];
    assert r == rr + r[j..];
    assert multiset(r) == multiset(rr) + multiset(r[j..]);
    assert r[i] in rr && r[j] in r[j..];
    assert multiset(items)[items[a]] == 1;
    assert r[i] != r[j];
    assert a != b;
  }

  /** Items with distinct keys occur once each. */
  lemma {:induction false} DistinctKeysNoDuplicate<V>(items: seq<(string, V)>)
    requires forall a, b :: 0 <= a < b < |items| ==> items[a].0 != items[b].0
    ensures forall a :: 0 <= a < |items| ==> multiset(items)[items[a]] == 1
    decreases |items|
  {
    if |items| > 0 {
      var rest := items[1..];
      DistinctKeysNoDuplicate(rest);
      assert items == [items[0]] + rest;
      assert items[0] !in rest by {
        forall k | 0 <= k < |rest| ensures rest[k] != items[0] {
          assert rest[k] == items[k + 1];
        }
      }
      forall a | 0 <= a < |items| ensures multiset(items)[items[a]] == 1 {
        if a > 0 {
          assert items[a] == rest[a - 1];
          assert items[a] != items[0];
        }
      }
    }
  }
}
