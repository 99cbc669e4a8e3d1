/** The SQLAlchemy panel's signed-query protocol and its availability rules
    (src/flask_debugtoolbar/panels/sqlalchemy.py, and the older
    flask_debugtoolbar/panels/sqlalchemy.py).  A query shown in the panel can
    be re-run from the browser; the panel only hands out tokens for SELECT
    statements, and the re-run view only accepts tokens that carry one.

    The itsdangerous serializer is a pair of functions keyed by the secret
    and the salt; `dumps` answers `None` where serialisation raises
    `TypeError`, and `loads` answers what the unpacking
    `statement, params = ...` then meets: a bad signature, or a verified
    payload of some shape.  Only the bad signature and the `TypeError` of a
    payload that cannot be unpacked are turned into 406; a list of the wrong
    length (`ValueError`) and a statement that is not a string (the
    `AttributeError` of `statement.lower()`) escape as server errors. */
module SqlPanel {
  import opened Text
  import opened Results

  const Salt: string := "fdt-sql-query"

  /** A statement with its bound parameters.  Parameters are a sequence of
      values (a tuple, or a dict's items); `None` and an empty collection are
      both falsy and are both the empty sequence here. */
  datatype Query<P> = Query(statement: string, params: seq<P>)

  /** What `loads` yields, as the unpacking into statement and parameters
      sees it. */
  datatype Payload<P> =
    | BadSignature        // itsdangerous.BadSignature
    | NotIterable         // a number or null: unpacking raises TypeError
    | WrongLength         // an iterable of other than two items: ValueError
    | NonTextStatement    // two items, the first not a string
    | Pair(q: Query<P>)

  datatype Signer<!P> = Signer(
    dumps: (string, string, Query<P>) -> Option<string>,
    loads: (string, string, string) -> Payload<P>)

  /** What itsdangerous guarantees: a token made under a secret and salt loads
      back, under the same secret and salt, to the value it was made from. */
  ghost predicate RoundTrips<P(!new)>(signer: Signer<P>, secret: string) {
    forall q, token :: signer.dumps(secret, Salt, q) == Some(token) ==> signer.loads(secret, Salt, token) == Pair(q)
  }

  /** `is_select`: the lower-cased, stripped statement starts with "select". */
  predicate IsSelect(statement: string) {
    StartsWith(Strip(Lower(statement)), "select")
  }

  /** The same rule read off the statement itself: after some leading white
      space the word "select" follows, in any letter case. */
  ghost predicate SelectAfterBlanks(s: string) {
    exists k :: 0 <= k <= |s| && (forall i :: 0 <= i < k ==> IsSpace(s[i])) && CiOccursAt(s, "select", k)
  }

  lemma TrimRightKeepsWord(y: string, p: string)
    requires |p| > 0 && !IsSpace(p[|p| - 1])
    ensures StartsWith(TrimRight(y), p) <==> StartsWith(y, p)
  {
    var r := TrimRight(y);
    if StartsWith(y, p) {
      assert !IsSpace(y[|p| - 1]);
      assert |r| >= |p|;
      assert r[..|p|] == y[..|p|];
    }
    if StartsWith(r, p) {
      assert y[..|p|] == r[..|p|];
    }
  }

  lemma LowerSelect()
    ensures Lower("select") == "select"
  {
  }

  /** Where stripping the lower-cased statement starts. */
  function LeadingBlanks(s: string): (k: nat)
    ensures k <= |s|
    ensures forall i :: 0 <= i < k ==> IsSpace(s[i])
    ensures k < |s| ==> !IsSpace(s[k])
    ensures TrimLeft(Lower(s)) == Lower(s)[k..]
  {
    var x := Lower(s);
    var k := |x| - |TrimLeft(x)|;
    forall i | 0 <= i < |s| ensures IsSpace(x[i]) <==> IsSpace(s[i]) {
      LowerKeepsSpace(s[i]);
    }
    assert k < |s| ==> TrimLeft(x)[0] == x[k];
    k
  }

  lemma IsSelectAtBlanks(s: string)
    ensures IsSelect(s) <==> OccursAt(Lower(s), "select", LeadingBlanks(s))
  {
    var x := Lower(s);
    var k := LeadingBlanks(s);
    var y := TrimLeft(x);
    assert y == x[k..];
    assert IsSelect(s) <==> StartsWith(TrimRight(y), "select");
    assert StartsWith(TrimRight(y), "select") <==> StartsWith(y, "select") by {
      TrimRightKeepsWord(y, "select");
    }
    assert StartsWith(y, "select") <==> OccursAt(x, "select", k) by {
      WordAfterPrefix(x, k, "select");
    }
  }

  lemma WordAfterPrefix(x: string, k: nat, w: string)
    requires k <= |x|
    ensures StartsWith(x[k..], w) <==> OccursAt(x, w, k)
  {
    if k + |w| <= |x| {
      assert x[k..][..|w|] == x[k..k + |w|];
    }
  }

  lemma CiSelectIffLowered(s: string, k: int)
    ensures CiOccursAt(s, "select", k) <==> OccursAt(Lower(s), "select", k)
  {
    LowerSelect();
    CiOccursAtIffLowered(s, "select");
  }

  /** The only place "select" can follow leading blanks is where the blanks end. */
  lemma SelectOnlyAtBlanksEnd(s: string, k: int)
    requires 0 <= k <= |s| && (forall i :: 0 <= i < k ==> IsSpace(s[i])) && CiOccursAt(s, "select", k)
    ensures k == LeadingBlanks(s)
  {
    var k0 := LeadingBlanks(s);
    CiSelectIffLowered(s, k);
    assert Lower(s)[k..k + 6] == "select";
    assert Lower(s)[k] == 's';
    assert !IsSpace(s[k]);
  }

  lemma {:induction false} IsSelectIff(s: string)
    ensures IsSelect(s) <==> SelectAfterBlanks(s)
  {
    var k0 := LeadingBlanks(s);
    IsSelectAtBlanks(s);
    CiSelectIffLowered(s, k0);
    if SelectAfterBlanks(s) {
      var k :| 0 <= k <= |s| && (forall i :: 0 <= i < k ==> IsSpace(s[i])) && CiOccursAt(s, "select", k);
      SelectOnlyAtBlanksEnd(s, k);
    }
  }

  /** `dump_query`: a token only for a select statement with parameters. */
  function DumpQuery<P>(signer: Signer<P>, secret: string, statement: string, params: seq<P>): (r: Option<string>)
    ensures r.Some? ==> |params| > 0 && SelectAfterBlanks(statement)
    ensures |params| > 0 && IsSelect(statement) ==> r == signer.dumps(secret, Salt, Query(statement, params))
  {
    IsSelectIff(statement);
    if |params| == 0 || !IsSelect(statement) then None
    else signer.dumps(secret, Salt, Query(statement, params))
  }

  /** `load_query`: the payload of a valid token, when it unpacks into a
      select statement and its parameters.  A bad signature, a payload that
      cannot be unpacked and a statement that is not a select abort with
      406; the other malformed payloads raise past the view. */
  function LoadQuery<P>(signer: Signer<P>, secret: string, data: string): (r: Result<Query<P>>)
    ensures r.Ok? <==> signer.loads(secret, Salt, data).Pair? && SelectAfterBlanks(signer.loads(secret, Salt, data).q.statement)
    ensures r.Ok? ==> signer.loads(secret, Salt, data) == Pair(r.value)
    ensures r == Err(Abort(406)) <==>
              signer.loads(secret, Salt, data) in {BadSignature, NotIterable} ||
              (signer.loads(secret, Salt, data).Pair? && !SelectAfterBlanks(signer.loads(secret, Salt, data).q.statement))
    ensures signer.loads(secret, Salt, data) == WrongLength ==> r == Err(ValueError)
    ensures signer.loads(secret, Salt, data) == NonTextStatement ==> r == Err(AttributeError)
  {
    match signer.loads(secret, Salt, data)
    case BadSignature => Err(Abort(406))
    case NotIterable => Err(Abort(406))
    case WrongLength => Err(ValueError)
    case NonTextStatement => Err(AttributeError)
    case Pair(q) =>
      IsSelectIff(q.statement);
      if !IsSelect(q.statement) then Err(Abort(406)) else Ok(q)
  }

  /** Every token the panel hands out is accepted by the re-run view and
      yields the statement and parameters it was made from. */
  lemma DumpLoadRoundTrip<P(!new)>(signer: Signer<P>, secret: string, statement: string, params: seq<P>)
    requires RoundTrips(signer, secret)
    ensures DumpQuery(signer, secret, statement, params).Some? ==>
              LoadQuery(signer, secret, DumpQuery(signer, secret, statement, params).value) == Ok(Query(statement, params))
  {
    var r := DumpQuery(signer, secret, statement, params);
    if r.Some? {
      var q := Query(statement, params);
      assert |params| > 0 && IsSelect(statement);
      assert signer.dumps(secret, Salt, q) == Some(r.value);
      assert signer.loads(secret, Salt, r.value) == Pair(q);
    }
  }

  /** A payload that is not a select is refused even under a valid signature. */
  lemma LoadRefusesNonSelect<P>(signer: Signer<P>, secret: string, data: string)
    requires signer.loads(secret, Salt, data).Pair? && !SelectAfterBlanks(signer.loads(secret, Salt, data).q.statement)
    ensures LoadQuery(signer, secret, data) == Err(Abort(406))
  {
  }

  /** The facts `is_available` and the panel's text depend on. */
  datatype SqlEnv = SqlEnv(
    sqlalchemyAvailable: bool,      // flask_sqlalchemy imported
    debugEnablesRecording: bool,    // flask_sqlalchemy < 3 records in debug mode
    extensionUsed: bool,            // "sqlalchemy" in app.extensions
    appDebug: bool,
    recordQueries: bool)            // SQLALCHEMY_RECORD_QUERIES, default False

  predicate RecordingEnabled(env: SqlEnv) {
    (env.debugEnablesRecording && env.appDebug) || env.recordQueries
  }

  predicate IsAvailable(env: SqlEnv) {
    env.sqlalchemyAvailable && env.extensionUsed && RecordingEnabled(env)
  }

  /** `content` shows the error page instead of the query table. */
  predicate ShowsErrorPage(env: SqlEnv, count: nat) {
    count == 0 && !IsAvailable(env)
  }

  /** `has_content`: recorded queries, or an unavailable panel with its error page. */
  function HasContent(env: SqlEnv, count: nat): (r: bool)
    ensures r <==> count > 0 || ShowsErrorPage(env, count)
    ensures !r ==> count == 0 && env.sqlalchemyAvailable && env.extensionUsed
  {
    count > 0 || !IsAvailable(env)
  }

  /** `nav_subtitle`: "Unavailable", or the query count. */
  function NavSubtitle(env: SqlEnv, count: nat): (r: string)
    ensures r == "Unavailable" <==> ShowsErrorPage(env, count)
    ensures !ShowsErrorPage(env, count) ==> StartsWith(r, NatToString(count) + " ")
    ensures count == 1 ==> r == "1 query"
    ensures !ShowsErrorPage(env, count) && count != 1 ==> r == NatToString(count) + " queries"
  {
    if count == 0 && !IsAvailable(env) then "Unavailable"
    else
      var r := Counted(count, "query", "queries");
      assert r[0] != 'U' by { assert r[0] == NatToString(count)[0]; }
      r
  }

  /** A panel without content is available and reports zero queries. */
  lemma NoContentMeansZeroQueries(env: SqlEnv, count: nat)
    ensures !HasContent(env, count) ==> NavSubtitle(env, count) == "0 queries"
  {
  }

  /** The statement `sql_select` runs: with `explain`, prefixed so the
      database describes its plan. */
  function ExplainStatement(statement: string, explain: bool, driver: string): (r: string)
    ensures !explain ==> r == statement
    ensures explain ==> EndsWith(r, statement) && StartsWith(r, "EXPLAIN") && |r| > |statement|
    ensures explain && driver == "pysqlite" ==> r[..|r| - |statement|] == "EXPLAIN QUERY PLAN\n"
    ensures explain && driver != "pysqlite" ==> r[..|r| - |statement|] == "EXPLAIN\n"
  {
    if !explain then statement
    else if driver == "pysqlite" then "EXPLAIN QUERY PLAN\n" + statement
    else "EXPLAIN\n" + statement
  }

  /** An explained statement is no longer a select: the explain form can only
      be built after the token's select check has passed. */
  lemma ExplainedIsNotSelect(statement: string, driver: string)
    ensures !IsSelect(ExplainStatement(statement, true, driver))
  {
    var r := ExplainStatement(statement, true, driver);
    var x := Lower(r);
    assert x[0] == 'e';
    assert LeadingBlanks(r) == 0 by {
      assert !IsSpace(r[0]);
    }
    IsSelectAtBlanks(r);
  }

  // The older flask_debugtoolbar package.

  /** The older `load_query` ignores its argument and reads the `query`
      request argument; a missing argument is the `KeyError` Flask turns into
      a 400 response. */
  function LegacyLoadQuery<P>(signer: Signer<P>, secret: string, data: string, args: map<string, string>): (r: Result<Query<P>>)
    ensures "query" !in args ==> r == Err(KeyError)
    ensures "query" in args ==> r == LoadQuery(signer, secret, args["query"])
  {
    if "query" !in args then Err(KeyError) else LoadQuery(signer, secret, args["query"])
  }

  /** What the older view loads does not depend on the token it is given. */
  lemma LegacyLoadIgnoresData<P>(signer: Signer<P>, secret: string, d1: string, d2: string, args: map<string, string>)
    ensures LegacyLoadQuery(signer, secret, d1, args) == LegacyLoadQuery(signer, secret, d2, args)
  {
  }

  /** The older `has_content`: true when a library is missing (the panel shows
      an error), otherwise whether queries were recorded. */
  function LegacyHasContent(jsonAvailable: bool, sqlalchemyAvailable: bool, count: nat): (r: bool)
    ensures !jsonAvailable || !sqlalchemyAvailable ==> r
    ensures jsonAvailable && sqlalchemyAvailable ==> (r <==> count > 0)
  {
    if !jsonAvailable || !sqlalchemyAvailable then true else count > 0
  }

  function LegacyNavSubtitle(jsonAvailable: bool, sqlalchemyAvailable: bool, count: nat): (r: string)
    ensures r == "Unavailable" <==> !jsonAvailable || !sqlalchemyAvailable
    ensures jsonAvailable && sqlalchemyAvailable ==> r == Counted(count, "query", "queries")
  {
    if !jsonAvailable || !sqlalchemyAvailable then "Unavailable"
    else
      var r := Counted(count, "query", "queries");
      assert r[0] != 'U' by { assert r[0] == NatToString(count)[0]; }
      r
  }

  /** The lines of the older panel's missing-library message. */
  function MissingLibraryLines(jsonAvailable: bool, sqlalchemyAvailable: bool): (r: seq<string>)
    ensures |r| >= 3 && r[0] == "Missing required libraries:" && r[1] == "<ul>" && r[|r| - 1] == "</ul>"
    ensures "<li>simplejson</li>" in r <==> !jsonAvailable
    ensures "<li>Flask-SQLAlchemy</li>" in r <==> !sqlalchemyAvailable
    ensures |r| == 3 + (if jsonAvailable then 0 else 1) + (if sqlalchemyAvailable then 0 else 1)
  {
    ["Missing required libraries:", "<ul>"]
    + (if jsonAvailable then [] else ["<li>simplejson</li>"])
    + (if sqlalchemyAvailable then [] else ["<li>Flask-SQLAlchemy</li>"])
    + ["</ul>"]
  }

  /** The older `content` up to rendering: the newline-joined message when a
      library is missing, `None` when the query table is rendered instead. */
  function LegacyMissingMessage(jsonAvailable: bool, sqlalchemyAvailable: bool): (r: Option<string>)
    ensures r.Some? <==> !jsonAvailable || !sqlalchemyAvailable
    ensures r.Some? ==> StartsWith(r.value, "Missing required libraries:\n<ul>\n") && EndsWith(r.value, "\n</ul>")
  {
    if jsonAvailable && sqlalchemyAvailable then None
    else
      var lines := MissingLibraryLines(jsonAvailable, sqlalchemyAvailable);
      JoinFrame(lines, '\n');
      Some(Join(lines, '\n'))
  }

  /** The joined text starts with the first two lines and ends with the last. */
  lemma {:induction false} JoinFrame(lines: seq<string>, d: char)
    requires |lines| >= 3
    ensures StartsWith(Join(lines, d), lines[0] + [d] + lines[1] + [d])
    ensures EndsWith(Join(lines, d), [d] + lines[|lines| - 1])
  {
    var rest := Join(lines[2..], d);
    assert Join(lines[1..], d) == lines[1] + [d] + rest;
    assert Join(lines, d) == lines[0] + [d] + lines[1] + [d] + rest;
    JoinEndsWithLast(lines[1..], d);
    assert lines[1..][|lines[1..]| - 1] == lines[|lines| - 1];
  }

  lemma {:induction false} JoinEndsWithLast(parts: seq<string>, d: char)
    requires |parts| >= 2
    ensures EndsWith(Join(parts, d), [d] + parts[|parts| - 1])
    decreases |parts|
  {
    if |parts| > 2 {
      JoinEndsWithLast(parts[1..], d);
      assert parts[1..][|parts[1..]| - 1] == parts[|parts| - 1];
    }
  }

  /** The older explain view formats with `%s` after a space, not a newline. */
  function LegacyExplainStatement(statement: string, driver: string): (r: string)
    ensures EndsWith(r, statement)
    ensures driver == "pysqlite" ==> r[..|r| - |statement|] == "EXPLAIN QUERY PLAN "
    ensures driver != "pysqlite" ==> r[..|r| - |statement|] == "EXPLAIN "
  {
    if driver == "pysqlite" then "EXPLAIN QUERY PLAN " + statement else "EXPLAIN " + statement
  }
}
