/** The older profiler panel (flaskext/debugtoolbar/panels/profiler.py): how
    it names a function's file, how it shows call counts, and what an
    inactive panel does.  Paths are POSIX paths (`os.path.sep` is '/'). */
module Profiler {
  import opened Text
  import opened Results
  import Paths

  /** The length of `os.path.commonprefix([a, b])`. */
  function CommonPrefixLen(a: string, b: string): (n: nat)
    ensures n <= |a| && n <= |b|
    ensures a[..n] == b[..n]
    ensures n < |a| && n < |b| ==> a[n] != b[n]
  {
    if |a| == 0 || |b| == 0 || a[0] != b[0] then 0
    else
      var m := CommonPrefixLen(a[1..], b[1..]);
      assert a[..m + 1] == [a[0]] + a[1..][..m];
      assert b[..m + 1] == [b[0]] + b[1..][..m];
      m + 1
  }

  /** A string that starts `b` is shared in full. */
  lemma CommonPrefixOfPrefix(a: string, b: string)
    requires |a| < |b| && b[..|a|] == a
    ensures CommonPrefixLen(a, b) == |a|
  {
  }

  /** The `sys.path` loop from a given `(prefix, prefix_len)`: an entry
      replaces the prefix only when it shares strictly more with `value`. */
  function Scan(paths: seq<string>, value: string, prefix: Option<string>, len: nat): (r: (Option<string>, nat))
    ensures r.1 >= len
    ensures r.1 == len ==> r.0 == prefix
    ensures r.1 > len ==> r.1 <= |value| && r.0 == Some(value[..r.1])
    ensures forall i :: 0 <= i < |paths| ==> CommonPrefixLen(paths[i], value) <= r.1
    ensures r.1 > len ==> exists i :: 0 <= i < |paths| && CommonPrefixLen(paths[i], value) == r.1
    decreases |paths|
  {
    if |paths| == 0 then (prefix, len)
    else
      var n := CommonPrefixLen(paths[0], value);
      var r := if n > len then Scan(paths[1..], value, Some(value[..n]), n)
               else Scan(paths[1..], value, prefix, len);
      assert forall i :: 1 <= i < |paths| ==> paths[i] == paths[1..][i - 1];
      r
  }

  /** The outcome of the loop: the longest prefix any entry shares with
      `value`, or `None` when none shares even one character. */
  function LongestSharedPrefix(sysPath: seq<string>, value: string): (r: (Option<string>, nat))
    ensures r.0.None? <==> r.1 == 0
    ensures r.0.Some? ==> r.1 <= |value| && r.0.value == value[..r.1]
    ensures forall i :: 0 <= i < |sysPath| ==> CommonPrefixLen(sysPath[i], value) <= r.1
    ensures r.1 > 0 ==> exists i :: 0 <= i < |sysPath| && CommonPrefixLen(sysPath[i], value) == r.1
  {
    Scan(sysPath, value, None, 0)
  }

  /** The branches `format_fname` shares before the `sys.path` search:
      `Some` answer for relative values and for files under the root. */
  function Shortcut(value: string, rootPath: string): (r: Option<string>)
    ensures !Paths.IsAbsPosix(value) && (StartsWith(value, "{") || StartsWith(value, "<") || StartsWith(value, "./")) ==> r == Some(value)
    ensures !Paths.IsAbsPosix(value) && !(StartsWith(value, "{") || StartsWith(value, "<") || StartsWith(value, "./")) ==> r == Some("./" + value)
    ensures Paths.IsAbsPosix(value) && StartsWith(value, rootPath) ==> r == Some("." + value[|rootPath|..])
    ensures Paths.IsAbsPosix(value) && !StartsWith(value, rootPath) ==> r.None?
  {
    if !Paths.IsAbsPosix(value) then
      if StartsWith(value, "{") || StartsWith(value, "<") then Some(value)
      else if StartsWith(value, "./") then Some(value)
      else Some("./" + value)
    else if StartsWith(value, rootPath) then Some("." + value[|rootPath|..])
    else None
  }

  /** `format_fname` as written: when the shared prefix does not end in a
      separator one character is taken off its length, so the last
      character of the prefix is kept in the shown path.  With no shared
      prefix, `prefix` is still `None` and `.endswith` fails. */
  function FormatFnameAsWritten(value: string, rootPath: string, sysPath: seq<string>): (r: Result<string>)
    ensures Shortcut(value, rootPath).Some? ==> r == Ok(Shortcut(value, rootPath).value)
    ensures Shortcut(value, rootPath).None? && LongestSharedPrefix(sysPath, value).1 == 0 ==> r == Err(AttributeError)
    ensures r.Ok? ==> StartsWith(r.value, ".") || StartsWith(r.value, "{") || StartsWith(r.value, "<")
  {
    match Shortcut(value, rootPath)
    case Some(shown) => Ok(shown)
    case None =>
      var (prefix, n) := LongestSharedPrefix(sysPath, value);
      if prefix.None? then Err(AttributeError)
      else
        var cut := if EndsWith(prefix.value, "/") then n else n - 1;
        Ok("<" + value[cut..] + ">")
  }

  /** Where the corrected `format_fname` cuts `value`: just after the last
      separator at or before the end of the shared prefix, so the shown path
      starts at a whole path component. */
  function Cut(value: string, n: nat): (c: nat)
    requires n <= |value|
    ensures c <= |value|
    ensures c > 0 ==> value[c - 1] == '/'
  {
    var window := value[..if n < |value| then n + 1 else n];
    LastIndexOf(window, '/') + 1
  }

  /** `format_fname` with the cut at a separator. */
  function FormatFname(value: string, rootPath: string, sysPath: seq<string>): (r: Result<string>)
    ensures Shortcut(value, rootPath).Some? ==> r == Ok(Shortcut(value, rootPath).value)
    ensures Shortcut(value, rootPath).None? && LongestSharedPrefix(sysPath, value).1 == 0 ==> r == Err(AttributeError)
    ensures r.Ok? && Shortcut(value, rootPath).None? ==>
              var c := Cut(value, LongestSharedPrefix(sysPath, value).1);
              r.value == "<" + value[c..] + ">" && c > 0
  {
    match Shortcut(value, rootPath)
    case Some(shown) => Ok(shown)
    case None =>
      var (prefix, n) := LongestSharedPrefix(sysPath, value);
      if prefix.None? then Err(AttributeError)
      else
        assert value[..if n < |value| then n + 1 else n][0] == '/';
        Ok("<" + value[Cut(value, n)..] + ">")
  }

  /** The situation both versions are judged on: `value` is a file below the
      `sys.path` entry `entry`, no entry shares more with it, and it is not
      under the application root. */
  predicate BelowEntry(value: string, rootPath: string, sysPath: seq<string>, entry: string, rest: string) {
    && Paths.IsAbsPosix(entry) && !EndsWith(entry, "/")
    && entry in sysPath
    && value == entry + "/" + rest
    && !StartsWith(value, rootPath)
    && (forall i :: 0 <= i < |sysPath| ==> CommonPrefixLen(sysPath[i], value) <= |entry|)
  }

  lemma SharedPrefixIsEntry(value: string, rootPath: string, sysPath: seq<string>, entry: string, rest: string)
    requires BelowEntry(value, rootPath, sysPath, entry, rest)
    ensures LongestSharedPrefix(sysPath, value).1 == |entry|
    ensures LongestSharedPrefix(sysPath, value).0 == Some(entry)
  {
    assert value[..|entry|] == entry;
    CommonPrefixOfPrefix(entry, value);
    var k :| 0 <= k < |sysPath| && sysPath[k] == entry;
  }

  /** As written, the last character of the entry leaks into the shown path. */
  lemma FormatFnameAsWrittenKeepsLastChar(value: string, rootPath: string, sysPath: seq<string>, entry: string, rest: string)
    requires BelowEntry(value, rootPath, sysPath, entry, rest)
    ensures FormatFnameAsWritten(value, rootPath, sysPath) == Ok("<" + [entry[|entry| - 1]] + "/" + rest + ">")
  {
    SharedPrefixIsEntry(value, rootPath, sysPath, entry, rest);
    assert value[0] == '/';
    assert Shortcut(value, rootPath).None?;
    var (prefix, n) := LongestSharedPrefix(sysPath, value);
    assert prefix == Some(entry) && n == |entry|;
    assert !EndsWith(prefix.value, "/");
    assert FormatFnameAsWritten(value, rootPath, sysPath) == Ok("<" + value[n - 1..] + ">");
    assert value[n - 1..] == [entry[|entry| - 1]] + "/" + rest;
    assert "<" + value[n - 1..] + ">" == "<" + [entry[|entry| - 1]] + "/" + rest + ">";
  }

  /** Corrected, the shown path is the file's path relative to the entry. */
  lemma FormatFnameRelativeToEntry(value: string, rootPath: string, sysPath: seq<string>, entry: string, rest: string)
    requires BelowEntry(value, rootPath, sysPath, entry, rest)
    ensures FormatFname(value, rootPath, sysPath) == Ok("<" + rest + ">")
  {
    SharedPrefixIsEntry(value, rootPath, sysPath, entry, rest);
    var n := |entry|;
    var window := value[..n + 1];
    assert window[n] == '/';
    assert LastIndexOf(window, '/') == n;
    assert value[n + 1..] == rest;
  }

  lemma PythonLibBelowEntry(entry: string, value: string, rootPath: string)
    requires entry == "/usr/lib/python2.6" && value == "/usr/lib/python2.6/os.py" && rootPath == "/srv/app"
    ensures BelowEntry(value, rootPath, [entry], entry, "os.py")
  {
    assert value == entry + "/" + "os.py";
    assert !StartsWith(value, rootPath) by { assert value[1] != rootPath[1]; }
    assert !EndsWith(entry, "/") by { assert entry[|entry| - 1] == '6'; }
    assert value[..|entry|] == entry;
    CommonPrefixOfPrefix(entry, value);
  }

  /** The standard library's `os.py` under `sys.path` entry
      `/usr/lib/python2.6` is shown as `<6/os.py>`. */
  lemma PythonLibAsWritten(entry: string, value: string, rootPath: string)
    requires entry == "/usr/lib/python2.6" && value == "/usr/lib/python2.6/os.py" && rootPath == "/srv/app"
    ensures FormatFnameAsWritten(value, rootPath, [entry]) == Ok("<6/os.py>")
  {
    assert "<" + [entry[|entry| - 1]] + "/" + "os.py" + ">" == "<6/os.py>";
    PythonLibBelowEntry(entry, value, rootPath);
    FormatFnameAsWrittenKeepsLastChar(value, rootPath, [entry], entry, "os.py");
  }

  /** The corrected version shows the same file as `<os.py>`. */
  lemma PythonLibCorrected(entry: string, value: string, rootPath: string)
    requires entry == "/usr/lib/python2.6" && value == "/usr/lib/python2.6/os.py" && rootPath == "/srv/app"
    ensures FormatFname(value, rootPath, [entry]) == Ok("<os.py>")
  {
    assert "<" + "os.py" + ">" == "<os.py>";
    PythonLibBelowEntry(entry, value, rootPath);
    FormatFnameRelativeToEntry(value, rootPath, [entry], entry, "os.py");
  }

  /** The `ncalls` column: "total/primitive" when recursion made them
      differ, the total alone otherwise. */
  function Ncalls(primitive: nat, total: nat): (r: string)
    ensures primitive == total ==> r == NatToString(total)
    ensures '/' in r <==> primitive != total
  {
    if primitive != total then
      var r := NatToString(total) + "/" + NatToString(primitive);
      assert r[|NatToString(total)|] == '/';
      r
    else
      assert forall i :: 0 <= i < |NatToString(total)| ==> NatToString(total)[i] != '/';
      NatToString(total)
  }

  /** Both counts can be read back from the column. */
  lemma NcallsReadsBack(primitive: nat, total: nat)
    requires primitive != total
    ensures var parts := Split(Ncalls(primitive, total), '/');
            |parts| == 2 && AllDigits(parts[0]) && AllDigits(parts[1])
            && DigitsValue(parts[0]) == total && DigitsValue(parts[1]) == primitive
  {
    var a := NatToString(total);
    var b := NatToString(primitive);
    assert forall i :: 0 <= i < |a| ==> a[i] != '/';
    assert forall i :: 0 <= i < |b| ==> b[i] != '/';
    assert Join([a, b], '/') == a + "/" + b by {
      assert Join([a, b][1..], '/') == b;
    }
    SplitJoin([a, b], '/');
    NatToStringRoundTrip(total);
    NatToStringRoundTrip(primitive);
  }

  /** `process_view`: an inactive profiler leaves the view alone; an active
      one replaces it with the view run under the profiler. */
  function ProcessView<V>(isActive: bool, view: V, underProfiler: V -> V): (r: Option<V>)
    ensures r.None? <==> !isActive
    ensures isActive ==> r == Some(underProfiler(view))
  {
    if isActive then Some(underProfiler(view)) else None
  }

  /** The panel's profiling state: whether a profiler was started for this
      request and whether its statistics were collected. */
  datatype ProfilerState = ProfilerState(isActive: bool, profiling: bool, statsCollected: bool)

  /** `process_request`: only an active panel starts a profiler. */
  function ProcessRequest(s: ProfilerState): (r: ProfilerState)
    ensures !s.isActive ==> r == s
    ensures s.isActive ==> r.profiling && !r.statsCollected && r.isActive
  {
    if !s.isActive then s else s.(profiling := true, statsCollected := false)
  }

  /** `process_response`: an inactive panel answers `False` and changes
      nothing; an active one collects statistics if it was profiling. */
  function ProcessResponse(s: ProfilerState): (r: (bool, ProfilerState))
    ensures !s.isActive ==> r == (false, s)
    ensures s.isActive ==> r.0 && r.1.isActive && r.1.profiling == s.profiling
    ensures s.isActive && s.profiling ==> r.1.statsCollected
    ensures !s.profiling ==> r.1 == s
  {
    if !s.isActive then (false, s)
    else if s.profiling then (true, s.(statsCollected := true))
    else (true, s)
  }

  /** An inactive panel goes through a whole request without effect. */
  lemma InactiveRequestUntouched<V>(s: ProfilerState, view: V, underProfiler: V -> V)
    requires !s.isActive
    ensures ProcessView(s.isActive, view, underProfiler).None?
    ensures ProcessResponse(ProcessRequest(s)).1 == s
  {
  }
}
