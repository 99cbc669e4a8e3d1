/** The HTTP headers panel (src/flask_debugtoolbar/panels/headers.py): the
    WSGI environ entries it shows are those named in a fixed list, in the
    list's order. */
module Headers {
  import opened Seqs

  const HeaderFilter: seq<string> := [
    "CONTENT_TYPE",
    "HTTP_ACCEPT",
    "HTTP_ACCEPT_CHARSET",
    "HTTP_ACCEPT_ENCODING",
    "HTTP_ACCEPT_LANGUAGE",
    "HTTP_CACHE_CONTROL",
    "HTTP_CONNECTION",
    "HTTP_HOST",
    "HTTP_KEEP_ALIVE",
    "HTTP_REFERER",
    "HTTP_USER_AGENT",
    "QUERY_STRING",
    "REMOTE_ADDR",
    "REMOTE_HOST",
    "REQUEST_METHOD",
    "SCRIPT_NAME",
    "SERVER_NAME",
    "SERVER_PORT",
    "SERVER_PROTOCOL",
    "SERVER_SOFTWARE"
  ]

  /** `k in request.environ`, as the filter of the comprehension. */
  function InEnviron<V>(environ: map<string, V>): string -> bool {
    k => k in environ
  }

  function NamesOf<V>(pairs: seq<(string, V)>): (r: seq<string>)
    ensures |r| == |pairs| && forall i :: 0 <= i < |pairs| ==> r[i] == pairs[i].0
  {
    seq(|pairs|, i requires 0 <= i < |pairs| => pairs[i].0)
  }

  /** Every pair is an environ entry. */
  ghost predicate FromEnviron<V>(environ: map<string, V>, pairs: seq<(string, V)>) {
    forall i :: 0 <= i < |pairs| ==> pairs[i].0 in environ && pairs[i].1 == environ[pairs[i].0]
  }

  /** `{k: environ[k] for k in names if k in environ}`, as its items in
      insertion order. */
  function Captured<V>(names: seq<string>, environ: map<string, V>): (r: seq<(string, V)>)
    ensures forall i :: 0 <= i < |r| ==> r[i].0 in names
    ensures FromEnviron(environ, r)
    ensures NamesOf(r) == Filter(names, InEnviron(environ))
    decreases |names|
  {
    if |names| == 0 then []
    else
      var head := if names[0] in environ then [(names[0], environ[names[0]])] else [];
      var rest := Captured(names[1..], environ);
      assert NamesOf(head + rest) == NamesOf(head) + NamesOf(rest);
      assert forall i :: 0 <= i < |rest| ==> rest[i].0 in names;
      head + rest
  }

  /** `process_request`: the environ entries named in `header_filter`, with
      their environ values, in the list's order (the order the panel's
      template shows them in). */
  function ProcessRequest<V>(environ: map<string, V>): (r: seq<(string, V)>)
    ensures NamesOf(r) == Filter(HeaderFilter, InEnviron(environ))
    ensures FromEnviron(environ, r)
  {
    Captured(HeaderFilter, environ)
  }

  /** Two environs that agree on the listed names capture the same headers. */
  lemma {:induction false} CapturedAgree<V>(names: seq<string>, e1: map<string, V>, e2: map<string, V>)
    requires forall i :: 0 <= i < |names| ==> (names[i] in e1 <==> names[i] in e2)
    requires forall i :: 0 <= i < |names| && names[i] in e1 ==> e1[names[i]] == e2[names[i]]
    ensures Captured(names, e1) == Captured(names, e2)
    decreases |names|
  {
    if |names| > 0 {
      assert forall i :: 1 <= i < |names| ==> names[1..][i - 1] == names[i];
      CapturedAgree(names[1..], e1, e2);
    }
  }

  /** `dict(pairs)` for pairs whose names are distinct: it holds exactly the
      pairs' names. */
  function ToMap<V>(pairs: seq<(string, V)>): (r: map<string, V>)
    ensures forall k :: k in r <==> exists i :: 0 <= i < |pairs| && pairs[i].0 == k
    decreases |pairs|
  {
    if |pairs| == 0 then map[]
    else
      var rest := ToMap(pairs[1..]);
      assert forall i :: 1 <= i < |pairs| ==> pairs[1..][i - 1] == pairs[i];
      rest[pairs[0].0 := pairs[0].1]
  }

  /** The captured dict holds a listed name exactly when the environ does, with its value. */
  lemma {:induction false} ToMapOfCaptured<V>(names: seq<string>, environ: map<string, V>, k: string)
    requires k in names
    ensures k in ToMap(Captured(names, environ)) <==> k in environ
    ensures k in environ ==> ToMap(Captured(names, environ))[k] == environ[k]
    decreases |names|
  {
    var c := Captured(names, environ);
    var rest := Captured(names[1..], environ);
    if names[0] in environ {
      assert c == [(names[0], environ[names[0]])] + rest;
      assert c[1..] == rest;
    } else {
      assert c == rest;
    }
    if names[0] != k {
      assert k in names[1..] by {
        var i :| 0 <= i < |names| && names[i] == k;
        assert names[1..][i - 1] == k;
      }
      ToMapOfCaptured(names[1..], environ, k);
    }
  }

  lemma CapturedIdempotent<V>(names: seq<string>, environ: map<string, V>)
    ensures Captured(names, ToMap(Captured(names, environ))) == Captured(names, environ)
  {
    forall i | 0 <= i < |names| {
      ToMapOfCaptured(names, environ, names[i]);
    }
    CapturedAgree(names, ToMap(Captured(names, environ)), environ);
  }

  /** Capturing from the captured dict changes nothing. */
  lemma ProcessRequestIdempotent<V>(environ: map<string, V>)
    ensures ProcessRequest(ToMap(ProcessRequest(environ))) == ProcessRequest(environ)
  {
    CapturedIdempotent(HeaderFilter, environ);
  }

  /** Environ entries outside the list, such as `wsgi.input`, never affect
      what is shown. */
  lemma OtherEntriesIgnored<V>(environ: map<string, V>, k: string, v: V)
    requires k !in HeaderFilter
    ensures ProcessRequest(environ[k := v]) == ProcessRequest(environ)
  {
    CapturedAgree(HeaderFilter, environ[k := v], environ);
  }
}
