/** The `DebugPanel` base class (src/flask_debugtoolbar/panels/__init__.py):
    a panel's identity, its activation flag, the context dictionary shared by
    every panel, and the defaults subclasses inherit. */
module Panels {
  import opened Text
  import opened Results

  /** A panel class: its display `name` and the state a fresh instance starts with. */
  datatype PanelClass<S> = PanelClass(name: string, initial: S)

  /** A panel instance; `data` is the panel-specific state its hooks capture. */
  datatype Panel<S> = Panel(name: string, isActive: bool, data: S)

  /** `dom_id()`: `'flDebug%sPanel' % name.replace(' ', '')`. */
  function DomId(name: string): (r: string)
    ensures StartsWith(r, "flDebug") && EndsWith(r, "Panel")
    ensures ' ' !in r
    ensures |r| == 12 + |RemoveChar(name, ' ')|
    ensures r != ""
  {
    "flDebug" + RemoveChar(name, ' ') + "Panel"
  }

  /** Two names share a DOM identifier exactly when they agree once spaces are removed. */
  lemma DomIdDeterminedBySpacelessName(a: string, b: string)
    ensures DomId(a) == DomId(b) <==> RemoveChar(a, ' ') == RemoveChar(b, ' ')
  {
    if DomId(a) == DomId(b) {
      var ra, rb := RemoveChar(a, ' '), RemoveChar(b, ' ');
      assert |ra| == |rb|;
      assert ra == DomId(a)[7..7 + |ra|];
      assert rb == DomId(b)[7..7 + |rb|];
    }
  }

  /** `DebugPanel.__init__`: the instance starts inactive with the class's
      state, and the given context is merged into the shared class-level
      `context` dictionary (`self.context.update(context)`). */
  function Instantiate<S, V>(cls: PanelClass<S>, shared: map<string, V>, context: map<string, V>)
    : (r: (Panel<S>, map<string, V>))
    ensures !r.0.isActive
    ensures r.0.name == cls.name && r.0.data == cls.initial
    ensures r.1.Keys == shared.Keys + context.Keys
    ensures forall k :: k in context ==> r.1[k] == context[k]
    ensures forall k :: k in shared && k !in context ==> r.1[k] == shared[k]
  {
    (Panel(cls.name, false, cls.initial), shared + context)
  }

  /** The default `process_view` hook: records nothing and returns `None`. */
  function DefaultProcessView<S, R, V, K>(p: Panel<S>, req: R, view: V, kwargs: K): (Panel<S>, Option<V>) {
    (p, None)
  }
}
