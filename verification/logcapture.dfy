/** The log-capturing panels: the `ThreadTrackingHandler` that files every
    log record under the thread that emitted it
    (src/flask_debugtoolbar/panels/logger.py, the older
    flaskext/debugtoolbar/panels/logger.py and the logbook variant
    flask_debugtoolbar/panels/logbook.py), the once-only installation of that
    handler, and what the panel reads from it.

    Threads are opaque keys; the record map is a value, and each operation
    returns the map it leaves behind. */
module LogCapture {
  import opened Text
  import opened Results

  /** `handler.records`: the records of each thread. */
  type Records<Th, Rec> = map<Th, seq<Rec>>

  /** `get_records(thread)`: the thread's list, created empty when missing
      (an explicit test in the logging handlers, `setdefault` in logbook's). */
  function GetRecords<Th, Rec>(h: Records<Th, Rec>, t: Th): (r: (seq<Rec>, Records<Th, Rec>))
    ensures t in r.1 && r.1[t] == r.0
    ensures t in h ==> r.0 == h[t] && r.1 == h
    ensures t !in h ==> r.0 == [] && r.1.Keys == h.Keys + {t}
    ensures forall u :: u in h ==> u in r.1 && r.1[u] == h[u]
  {
    if t in h then (h[t], h) else ([], h[t := []])
  }

  /** `emit(record)`: appended to the emitting thread's list. */
  function Emit<Th, Rec>(h: Records<Th, Rec>, t: Th, rec: Rec): (r: Records<Th, Rec>)
    ensures r.Keys == h.Keys + {t}
    ensures r[t] == (if t in h then h[t] else []) + [rec]
    ensures forall u :: u in h && u != t ==> r[u] == h[u]
  {
    var (records, h1) := GetRecords(h, t);
    h1[t := records + [rec]]
  }

  /** `clear_records(thread)`: the thread's entry is dropped, if it has one. */
  function ClearRecords<Th, Rec>(h: Records<Th, Rec>, t: Th): (r: Records<Th, Rec>)
    ensures t !in r && r.Keys == h.Keys - {t}
    ensures t !in h ==> r == h
    ensures forall u :: u in r ==> r[u] == h[u]
  {
    h - {t}
  }

  /** Records emitted by one thread never show up in another's list. */
  lemma EmitIsolatesThreads<Th, Rec>(h: Records<Th, Rec>, t: Th, u: Th, rec: Rec)
    requires t != u
    ensures GetRecords(Emit(h, t, rec), u).0 == GetRecords(h, u).0
  {
  }

  /** Emitting after a clear leaves exactly the emitted records, in order. */
  function EmitAll<Th, Rec>(h: Records<Th, Rec>, t: Th, recs: seq<Rec>): Records<Th, Rec>
    decreases |recs|
  {
    if |recs| == 0 then h else EmitAll(Emit(h, t, recs[0]), t, recs[1..])
  }

  lemma {:induction false} EmitAllAppends<Th, Rec>(h: Records<Th, Rec>, t: Th, recs: seq<Rec>)
    ensures GetRecords(EmitAll(h, t, recs), t).0 == GetRecords(h, t).0 + recs
    decreases |recs|
  {
    if |recs| > 0 {
      var h1 := Emit(h, t, recs[0]);
      EmitAllAppends(h1, t, recs[1..]);
      assert GetRecords(h, t).0 + recs == GetRecords(h, t).0 + [recs[0]] + recs[1..];
    } else {
      assert GetRecords(h, t).0 + recs == GetRecords(h, t).0;
    }
  }

  /** The module-level `handler` (None until `_init_once`) and the number of
      handlers added to the root logger. */
  datatype Global<Th, Rec> = Global(handler: Option<Records<Th, Rec>>, installed: nat)

  /** The module state at import time: no handler, nothing installed. */
  function Startup<Th, Rec>(): Global<Th, Rec> {
    Global(None, 0)
  }

  /** `_init_once`: creates and installs the handler only when there is none. */
  function InitOnce<Th, Rec>(g: Global<Th, Rec>): (r: Global<Th, Rec>)
    ensures r.handler.Some?
    ensures g.handler.Some? ==> r == g
    ensures g.handler.None? ==> r.handler == Some(map[]) && r.installed == g.installed + 1
  {
    if g.handler.Some? then g else Global(Some(map[]), g.installed + 1)
  }

  /** A second call changes nothing, so the handler is installed once. */
  lemma InitOnceIdempotent<Th, Rec>(g: Global<Th, Rec>)
    ensures InitOnce(InitOnce(g)) == InitOnce(g)
    ensures g == Startup() ==> InitOnce(InitOnce(g)).installed == 1
  {
  }

  /** `process_request`: install the handler if needed and forget the current
      thread's earlier records. */
  function ProcessRequest<Th, Rec>(g: Global<Th, Rec>, t: Th): (r: Global<Th, Rec>)
    ensures r.handler.Some? && t !in r.handler.value
    ensures r.installed == InitOnce(g).installed
    ensures forall u :: u != t && u in InitOnce(g).handler.value ==> u in r.handler.value && r.handler.value[u] == InitOnce(g).handler.value[u]
  {
    var g1 := InitOnce(g);
    g1.(handler := Some(ClearRecords(g1.handler.value, t)))
  }

  /** The module state after one `process_request` per request, each on
      the thread named. */
  function RunRequests<Th, Rec>(g: Global<Th, Rec>, threads: seq<Th>): Global<Th, Rec>
    decreases |threads|
  {
    if |threads| == 0 then g else RunRequests(ProcessRequest(g, threads[0]), threads[1..])
  }

  /** However many requests run, on whatever threads, the handler is added to
      the root logger at most once: from import time, exactly once. */
  lemma {:induction false} RequestsInstallOnce<Th, Rec>(g: Global<Th, Rec>, threads: seq<Th>)
    requires |threads| > 0
    ensures RunRequests(g, threads).handler.Some?
    ensures RunRequests(g, threads).installed == InitOnce(g).installed
    ensures g == Startup() ==> RunRequests(g, threads).installed == 1
    decreases |threads|
  {
    if |threads| > 1 {
      RequestsInstallOnce(ProcessRequest(g, threads[0]), threads[1..]);
    }
  }

  /** `get_and_delete`: the current thread's records, which are then dropped.
      Before any `_init_once` the handler is None and the attribute access
      fails. */
  function GetAndDelete<Th, Rec>(g: Global<Th, Rec>, t: Th): (r: Result<(seq<Rec>, Global<Th, Rec>)>)
    ensures g.handler.None? ==> r == Err(AttributeError)
    ensures g.handler.Some? ==> r.Ok? && r.value.1.handler.Some? && t !in r.value.1.handler.value
    ensures g.handler.Some? ==> r.value.0 == GetRecords(g.handler.value, t).0 && r.value.1.installed == g.installed
  {
    match g.handler
    case None => Err(AttributeError)
    case Some(h) =>
      var (records, h1) := GetRecords(h, t);
      Ok((records, g.(handler := Some(ClearRecords(h1, t)))))
  }

  /** A request sees exactly the records its thread emitted since
      `process_request`, in order, and leaves none behind. */
  lemma RequestSeesItsRecords<Th, Rec>(g: Global<Th, Rec>, t: Th, recs: seq<Rec>)
    ensures var g1 := ProcessRequest(g, t);
            var g2 := g1.(handler := Some(EmitAll(g1.handler.value, t, recs)));
            var r := GetAndDelete(g2, t);
            r.Ok? && r.value.0 == recs && t !in r.value.1.handler.value
  {
    var g1 := ProcessRequest(g, t);
    EmitAllAppends(g1.handler.value, t, recs);
  }

  /** The logging panel's `nav_subtitle`: "1 message" or "N messages".  Reading
      the count goes through `get_records`, which may add an empty entry. */
  function NavSubtitle<Th, Rec>(h: Records<Th, Rec>, t: Th): (r: (string, Records<Th, Rec>))
    ensures r.0 == (if t in h && |h[t]| == 1 then "1 message" else NatToString(if t in h then |h[t]| else 0) + " messages")
    ensures t in r.1 && r.1[t] == GetRecords(h, t).0
  {
    assert "1 " + "message" == "1 message";
    var got := GetRecords(h, t);
    assert NatToString(|got.0|) + " " + "messages" == NatToString(|got.0|) + " messages";
    (Counted(|got.0|, "message", "messages"), got.1)
  }

  // The logbook panel's subtitle.

  /** A Python value as the `and`/`or` operators see it. */
  datatype PyValue = PyBool(b: bool) | PyStr(s: string)

  predicate Truthy(v: PyValue) {
    match v
    case PyBool(b) => b
    case PyStr(s) => s != ""
  }

  /** Python's `x and y` and `x or y`: each answers one of its operands. */
  function PyAnd(x: PyValue, y: PyValue): (r: PyValue)
    ensures r == x || r == y
    ensures Truthy(r) <==> Truthy(x) && Truthy(y)
  {
    if !Truthy(x) then x else y
  }

  function PyOr(x: PyValue, y: PyValue): (r: PyValue)
    ensures r == x || r == y
    ensures Truthy(r) <==> Truthy(x) || Truthy(y)
  {
    if Truthy(x) then x else y
  }

  /** `'%s' % v`. */
  function FormatS(v: PyValue): string {
    match v
    case PyStr(s) => s
    case PyBool(b) => if b then "True" else "False"
  }

  /** The logbook `nav_subtitle` as written: the suffix is
      `(n == 1) and '' or 's'`, and since `''` is falsy the `or` always
      picks `'s'`. */
  function LogbookNavSubtitleAsWritten(n: nat): (r: string)
    ensures r == NatToString(n) + " messages"
  {
    NatToString(n) + " message" + FormatS(PyOr(PyAnd(PyBool(n == 1), PyStr("")), PyStr("s")))
  }

  /** One record is reported as "1 messages". */
  lemma LogbookOneMessageAsWritten()
    ensures LogbookNavSubtitleAsWritten(1) == "1 messages"
    ensures LogbookNavSubtitleAsWritten(1) != LogbookNavSubtitle(1)
  {
    assert NatToString(1) == "1";
  }

  /** The logbook subtitle as intended: singular for exactly one record, the
      same as the logging panel's. */
  function LogbookNavSubtitle(n: nat): (r: string)
    ensures n == 1 ==> r == "1 message"
    ensures n != 1 ==> r == LogbookNavSubtitleAsWritten(n)
  {
    Counted(n, "message", "messages")
  }
}
