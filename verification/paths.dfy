/** The path and text helpers of src/flask_debugtoolbar/utils.py: relative
    paths under a list of roots, the shortest of them, the display form of a
    source file name, and the display decoding of byte strings.  Paths are
    taken as already absolute and normalised, so `abspath` and `normpath`
    are the identity here. */
module Paths {
  import opened Text
  import opened Results
  import opened Seqs

  /** Which `os.path` flavour is in use: `posixpath` or `ntpath`. */
  datatype Flavour = Posix | Nt

  function Sep(f: Flavour): char {
    if f.Posix? then '/' else '\\'
  }

  const ParDir: string := ".."
  const CurDir: string := "."

  /** The long-path UNC prefix `\\?\UNC\`, lower-cased. */
  const UncPrefix: string := "\\\\?\\unc\\"

  /** `splitdrive`: `posixpath` has no drives. Under `ntpath` (as of Python
      3.11) a path starting with two backslashes has a UNC drive; any other
      path whose second character is `:` has the drive `x:`. */
  function SplitDrive(f: Flavour, p: string): (r: (string, string))
    ensures r.0 + r.1 == p
    ensures f.Posix? || |p| < 2 || (p[..2] != "\\\\" && p[1] != ':') ==> r.0 == ""
    ensures f.Nt? && |p| >= 2 && p[..2] != "\\\\" && p[1] == ':' ==> r.0 == p[..2]
    ensures f.Nt? && |p| >= 2 && p[..2] == "\\\\" ==> |r.0| >= 2 && (r.1 == "" || r.1[0] == '\\')
  {
    if f.Posix? || |p| < 2 then ("", p)
    else if p[..2] == "\\\\" then SplitUnc(p)
    else if p[1] == ':' then (p[..2], p[2..])
    else ("", p)
  }

  /** `p.find('\\', k)`: the first backslash at or after `k`, or -1. */
  function FindBackslash(p: string, k: nat): (r: int)
    requires k <= |p|
    ensures r == -1 ==> forall m :: k <= m < |p| ==> p[m] != '\\'
    ensures r != -1 ==> k <= r < |p| && p[r] == '\\' && forall m :: k <= m < r ==> p[m] != '\\'
    decreases |p| - k
  {
    if k == |p| then -1
    else if p[k] == '\\' then k
    else FindBackslash(p, k + 1)
  }

  /** The UNC drive `\\server\share`, looked for after a `\\?\UNC\` prefix
      when there is one: it runs up to the backslash that closes the share,
      or is the whole path when no such backslash follows. */
  function SplitUnc(p: string): (r: (string, string))
    requires |p| >= 2 && p[..2] == "\\\\"
    ensures r.0 + r.1 == p
    ensures |r.0| >= 2 && (r.1 == "" || r.1[0] == '\\')
  {
    var start := if |p| >= 8 && Lower(p[..8]) == UncPrefix then 8 else 2;
    var index := FindBackslash(p, start);
    if index == -1 then (p, "")
    else
      var index2 := FindBackslash(p, index + 1);
      if index2 == -1 then (p, "") else (p[..index2], p[index2..])
  }

  /** `normcase`: `ntpath` compares without case; `posixpath` compares exactly. */
  function NormCase(f: Flavour, s: string): string {
    if f.Nt? then Lower(s) else s
  }

  function NonEmpty(s: string): bool {
    s != ""
  }

  /** `[x for x in rest.split(sep) if x]`. */
  function Components(f: Flavour, p: string): (r: seq<string>)
    ensures forall i :: 0 <= i < |r| ==> r[i] != "" && Sep(f) !in r[i]
  {
    var parts := Filter(Split(SplitDrive(f, p).1, Sep(f)), NonEmpty);
    assert forall i :: 0 <= i < |parts| ==> parts[i] in Split(SplitDrive(f, p).1, Sep(f));
    parts
  }

  /** The number of leading components on which the two lists agree. */
  function CommonLength(f: Flavour, xs: seq<string>, ys: seq<string>): (n: nat)
    ensures n <= |xs| && n <= |ys|
    ensures forall k :: 0 <= k < n ==> NormCase(f, xs[k]) == NormCase(f, ys[k])
    ensures n < |xs| && n < |ys| ==> NormCase(f, xs[n]) != NormCase(f, ys[n])
  {
    if |xs| == 0 || |ys| == 0 || NormCase(f, xs[0]) != NormCase(f, ys[0]) then 0
    else 1 + CommonLength(f, xs[1..], ys[1..])
  }

  function Repeat(s: string, n: nat): (r: seq<string>)
    ensures |r| == n && forall i :: 0 <= i < n ==> r[i] == s
  {
    seq(n, i => s)
  }

  /** `os.path.join(*parts)` for parts that hold no separator. */
  function JoinPath(f: Flavour, parts: seq<string>): string {
    Join(parts, Sep(f))
  }

  /** The relative-path list `relpath` joins, when the drives agree. */
  function RelList(f: Flavour, path: string, start: string): seq<string> {
    var sl := Components(f, start);
    var pl := Components(f, path);
    var i := CommonLength(f, sl, pl);
    Repeat(ParDir, |sl| - i) + pl[i..]
  }

  /** `relpath(path, start)`: an empty path and, under `ntpath`, a drive
      mismatch raise `ValueError`; otherwise one `..` per unmatched
      component of `start`, then the rest of `path`, or `.` when nothing is
      left. */
  function RelPath(f: Flavour, path: string, start: string): (r: Result<string>)
    ensures path == "" ==> r == Err(ValueError)
    ensures r.Err? ==> r.error == ValueError
  {
    if path == "" then Err(ValueError)
    else if NormCase(f, SplitDrive(f, start).0) != NormCase(f, SplitDrive(f, path).0) then Err(ValueError)
    else
      var rel := RelList(f, path, start);
      if |rel| == 0 then Ok(CurDir) else Ok(JoinPath(f, rel))
  }

  /** `start` names a directory containing `path` (or `path` itself), with
      drives and components compared as the flavour compares them. */
  predicate IsAncestor(f: Flavour, start: string, path: string) {
    var sl := Components(f, start);
    var pl := Components(f, path);
    && NormCase(f, SplitDrive(f, start).0) == NormCase(f, SplitDrive(f, path).0)
    && |sl| <= |pl|
    && forall k :: 0 <= k < |sl| ==> NormCase(f, sl[k]) == NormCase(f, pl[k])
  }

  /** What `_relative_paths` keeps from one candidate root. */
  predicate Keeps(r: Result<string>) {
    r.Ok? && !StartsWith(r.value, ParDir)
  }

  /** `x` is the relative path of `value` from one of `roots`. */
  predicate FromSomeRoot(f: Flavour, value: string, roots: seq<string>, x: string) {
    exists j :: 0 <= j < |roots| && RelPath(f, value, roots[j]) == Ok(x)
  }

  /** `_relative_paths`: for each root in order, the relative path of
      `value`, skipped when `relpath` raises or the result climbs out with `..`. */
  function RelativePaths(f: Flavour, value: string, roots: seq<string>): (r: seq<string>)
    ensures |r| <= |roots|
    ensures forall i :: 0 <= i < |r| ==> !StartsWith(r[i], ParDir)
    ensures forall i :: 0 <= i < |r| ==> FromSomeRoot(f, value, roots, r[i])
    ensures KeepsEvery(f, value, roots, r)
  {
    if |roots| == 0 then []
    else
      var rest := RelativePaths(f, value, roots[1..]);
      var here := RelPath(f, value, roots[0]);
      var r := if Keeps(here) then [here.value] + rest else rest;
      KeptInside(here, rest, r);
      FoundFromSomeRoot(f, value, roots, rest, r);
      KeptFromTail(f, value, roots, rest, r);
      r
  }

  /** Putting a kept path in front of paths that do not climb out gives
      paths that do not climb out, one more at most. */
  lemma KeptInside(here: Result<string>, rest: seq<string>, r: seq<string>)
    requires forall i :: 0 <= i < |rest| ==> !StartsWith(rest[i], ParDir)
    requires r == if Keeps(here) then [here.value] + rest else rest
    ensures |r| <= |rest| + 1
    ensures forall i :: 0 <= i < |r| ==> !StartsWith(r[i], ParDir)
  {
    if Keeps(here) {
      assert forall i :: 0 < i < |r| ==> r[i] == rest[i - 1];
    }
  }

  /** The step of `RelativePaths`: every path it gives comes from one of the roots. */
  lemma FoundFromSomeRoot(f: Flavour, value: string, roots: seq<string>, rest: seq<string>, r: seq<string>)
    requires |roots| > 0
    requires forall i :: 0 <= i < |rest| ==> FromSomeRoot(f, value, roots[1..], rest[i])
    requires r == if Keeps(RelPath(f, value, roots[0])) then [RelPath(f, value, roots[0]).value] + rest else rest
    ensures forall i :: 0 <= i < |r| ==> FromSomeRoot(f, value, roots, r[i])
  {
    FromRootsTail(f, value, roots, rest);
    var here := RelPath(f, value, roots[0]);
    if Keeps(here) {
      assert FromSomeRoot(f, value, roots, here.value) by {
        assert RelPath(f, value, roots[0]) == Ok(here.value);
      }
      assert forall i :: 0 < i < |r| ==> r[i] == rest[i - 1];
    }
  }

  /** One root contributes its relative path exactly when `_relative_paths` keeps it. */
  lemma RelativePathsOfOneRoot(f: Flavour, value: string, root: string)
    ensures RelativePaths(f, value, [root]) ==
      if Keeps(RelPath(f, value, root)) then [RelPath(f, value, root).value] else []
  {
    assert [root][1..] == [];
  }

  /** The roots are visited in order: the relative paths of a concatenation
      of root lists are those of the first list followed by those of the second. */
  lemma {:induction false} RelativePathsConcat(f: Flavour, value: string, a: seq<string>, b: seq<string>)
    ensures RelativePaths(f, value, a + b) == RelativePaths(f, value, a) + RelativePaths(f, value, b)
    decreases |a|
  {
    if |a| == 0 {
      assert a + b == b;
    } else {
      assert (a + b)[0] == a[0];
      assert (a + b)[1..] == a[1..] + b;
      RelativePathsConcat(f, value, a[1..], b);
    }
  }

  /** What `relpath` gives for `value` from each root, in order. */
  function RelPathsFrom(f: Flavour, value: string, roots: seq<string>): (r: seq<Result<string>>)
    ensures |r| == |roots|
    ensures forall j :: 0 <= j < |roots| ==> r[j] == RelPath(f, value, roots[j])
  {
    seq(|roots|, j requires 0 <= j < |roots| => RelPath(f, value, roots[j]))
  }

  /** Every result that is kept has its path in `r`. */
  predicate KeepsAll(rels: seq<Result<string>>, r: seq<string>) {
    forall j :: 0 <= j < |rels| && Keeps(rels[j]) ==> rels[j].value in r
  }

  /** Every root whose relative path is kept contributes it to `r`. */
  predicate KeepsEvery(f: Flavour, value: string, roots: seq<string>, r: seq<string>) {
    KeepsAll(RelPathsFrom(f, value, roots), r)
  }

  /** The step of `RelativePaths`: what the later roots keep is in `rest`,
      and the first root's kept path is in front of it. */
  lemma KeptFromTail(f: Flavour, value: string, roots: seq<string>, rest: seq<string>, r: seq<string>)
    requires |roots| > 0
    requires KeepsEvery(f, value, roots[1..], rest)
    requires r == if Keeps(RelPath(f, value, roots[0])) then [RelPath(f, value, roots[0]).value] + rest else rest
    ensures KeepsEvery(f, value, roots, r)
  {
    var rels := RelPathsFrom(f, value, roots);
    assert rels[1..] == RelPathsFrom(f, value, roots[1..]);
    KeptAllFromTail(rels, rest, r);
  }

  lemma KeptAllFromTail(rels: seq<Result<string>>, rest: seq<string>, r: seq<string>)
    requires |rels| > 0
    requires KeepsAll(rels[1..], rest)
    requires r == if Keeps(rels[0]) then [rels[0].value] + rest else rest
    ensures KeepsAll(rels, r)
  {
    forall j | 0 <= j < |rels| && Keeps(rels[j])
      ensures rels[j].value in r
    {
      if j > 0 {
        assert rels[1..][j - 1] == rels[j];
      } else {
        assert r[0] == rels[0].value;
      }
    }
  }

  /** A relative path found from `roots[1..]` is found from `roots`. */
  lemma FromRootsTail(f: Flavour, value: string, roots: seq<string>, xs: seq<string>)
    requires |roots| > 0
    requires forall i :: 0 <= i < |xs| ==> FromSomeRoot(f, value, roots[1..], xs[i])
    ensures forall i :: 0 <= i < |xs| ==> FromSomeRoot(f, value, roots, xs[i])
  {
    forall i | 0 <= i < |xs|
      ensures FromSomeRoot(f, value, roots, xs[i])
    {
      var j :| 0 <= j < |roots[1..]| && RelPath(f, value, roots[1..][j]) == Ok(xs[i]);
      assert roots[1..][j] == roots[j + 1];
    }
  }

  /** A relative path made only of components keeps them joined in order; a
      non-empty list starting with `..` joins to something starting with `..`. */
  lemma {:induction false} JoinStartsWithHead(parts: seq<string>, d: char)
    requires |parts| > 0
    ensures StartsWith(Join(parts, d), parts[0])
  {
    if |parts| > 1 {
      assert Join(parts, d) == parts[0] + ([d] + Join(parts[1..], d));
    }
  }

  /** `normpath(join(base, rel))` on components: `.` is dropped, `..` drops
      the last component (nothing at the root), anything else is appended. */
  function ApplyRel(base: seq<string>, rel: seq<string>): seq<string>
    decreases |rel|
  {
    if |rel| == 0 then base
    else if rel[0] == CurDir then ApplyRel(base, rel[1..])
    else if rel[0] == ParDir then ApplyRel(if |base| > 0 then base[..|base| - 1] else base, rel[1..])
    else ApplyRel(base + [rel[0]], rel[1..])
  }

  lemma {:induction false} ApplyClimbs(base: seq<string>, n: nat, rest: seq<string>)
    requires n <= |base|
    ensures ApplyRel(base, Repeat(ParDir, n) + rest) == ApplyRel(base[..|base| - n], rest)
    decreases n
  {
    var rel := Repeat(ParDir, n) + rest;
    if n > 0 {
      assert rel[0] == ParDir;
      assert rel[1..] == Repeat(ParDir, n - 1) + rest;
      ApplyClimbs(base[..|base| - 1], n - 1, rest);
      assert base[..|base| - 1][..|base| - 1 - (n - 1)] == base[..|base| - n];
    } else {
      assert rel == rest;
      assert base[..|base| - n] == base;
    }
  }

  lemma {:induction false} ApplyDescends(base: seq<string>, rest: seq<string>)
    requires forall k :: 0 <= k < |rest| ==> rest[k] != ParDir && rest[k] != CurDir
    ensures ApplyRel(base, rest) == base + rest
    decreases |rest|
  {
    if |rest| > 0 {
      ApplyDescends(base + [rest[0]], rest[1..]);
      assert base + [rest[0]] + rest[1..] == base + rest;
    }
  }

  /** Joining non-empty, separator-free parts and taking the components gives the parts back. */
  lemma ComponentsOfJoin(parts: seq<string>)
    requires |parts| > 0
    requires forall i :: 0 <= i < |parts| ==> parts[i] != "" && '/' !in parts[i]
    ensures Components(Posix, JoinPath(Posix, parts)) == parts
  {
    SplitJoin(parts, '/');
    FilterAllKept(parts, NonEmpty);
  }

  /** Under `posixpath`, `relpath` inverts `join`: resolving the relative path
      from `start` (`normpath(join(start, rel))`) leads back to `path`, for a
      normalised `path` (no `.` or `..` component) and any `start`. */
  lemma RelPathRoundTrip(path: string, start: string)
    requires path != ""
    requires var pl := Components(Posix, path); forall k :: 0 <= k < |pl| ==> pl[k] != ParDir && pl[k] != CurDir
    ensures RelPath(Posix, path, start).Ok?
    ensures ApplyRel(Components(Posix, start), Components(Posix, RelPath(Posix, path, start).value))
            == Components(Posix, path)
  {
    var sl := Components(Posix, start);
    var rel := RelList(Posix, path, start);
    RelListRoundTrip(path, start);
    RelPathComponents(path, start);
    if |rel| == 0 {
      assert ApplyRel(sl, [CurDir]) == ApplyRel(sl, []);
    }
  }

  /** The component list `relpath` joins leads from `start` back to `path`. */
  lemma RelListRoundTrip(path: string, start: string)
    requires var pl := Components(Posix, path); forall k :: 0 <= k < |pl| ==> pl[k] != ParDir && pl[k] != CurDir
    ensures ApplyRel(Components(Posix, start), RelList(Posix, path, start)) == Components(Posix, path)
  {
    var sl := Components(Posix, start);
    var pl := Components(Posix, path);
    ClimbThenDescend(sl, pl);
    assert RelList(Posix, path, start) == Repeat(ParDir, |sl| - CommonLength(Posix, sl, pl)) + pl[CommonLength(Posix, sl, pl)..];
  }

  /** Climbing out of the unmatched start components and descending into the
      rest of the path reaches the path. */
  lemma ClimbThenDescend(sl: seq<string>, pl: seq<string>)
    requires forall k :: 0 <= k < |pl| ==> pl[k] != ParDir && pl[k] != CurDir
    ensures var i := CommonLength(Posix, sl, pl);
            ApplyRel(sl, Repeat(ParDir, |sl| - i) + pl[i..]) == pl
  {
    var i := CommonLength(Posix, sl, pl);
    PosixCommonPrefix(sl, pl);
    ClimbTo(sl, pl[..i], pl[i..]);
    DescendTo(pl, i);
  }

  /** Climbing `|sl| - |prefix|` levels from `sl` lands on a prefix of it. */
  lemma ClimbTo(sl: seq<string>, prefix: seq<string>, rest: seq<string>)
    requires |prefix| <= |sl| && sl[..|prefix|] == prefix
    ensures ApplyRel(sl, Repeat(ParDir, |sl| - |prefix|) + rest) == ApplyRel(prefix, rest)
  {
    ApplyClimbs(sl, |sl| - |prefix|, rest);
  }

  /** Descending from a prefix of a dot-free list into the rest gives the list. */
  lemma DescendTo(pl: seq<string>, i: nat)
    requires i <= |pl|
    requires forall k :: 0 <= k < |pl| ==> pl[k] != ParDir && pl[k] != CurDir
    ensures ApplyRel(pl[..i], pl[i..]) == pl
  {
    DropNoDots(pl, i);
    ApplyDescends(pl[..i], pl[i..]);
    assert pl[..i] + pl[i..] == pl;
  }

  lemma DropNoDots(pl: seq<string>, i: nat)
    requires i <= |pl|
    requires forall k :: 0 <= k < |pl| ==> pl[k] != ParDir && pl[k] != CurDir
    ensures forall k :: 0 <= k < |pl[i..]| ==> pl[i..][k] != ParDir && pl[i..][k] != CurDir
  {
    assert forall k :: 0 <= k < |pl[i..]| ==> pl[i..][k] == pl[i + k];
  }

  /** Under `posixpath` the matched components are equal, not just equal up to case. */
  lemma PosixCommonPrefix(sl: seq<string>, pl: seq<string>)
    ensures var i := CommonLength(Posix, sl, pl); sl[..i] == pl[..i]
  {
    var i := CommonLength(Posix, sl, pl);
    assert forall k :: 0 <= k < i ==> NormCase(Posix, sl[k]) == sl[k] && NormCase(Posix, pl[k]) == pl[k];
  }

  /** The components of the string `relpath` returns: its list, or `.` for an empty one. */
  lemma RelPathComponents(path: string, start: string)
    requires path != ""
    ensures RelPath(Posix, path, start).Ok?
    ensures var rel := RelList(Posix, path, start);
            Components(Posix, RelPath(Posix, path, start).value) == if |rel| == 0 then [CurDir] else rel
  {
    var rel := RelList(Posix, path, start);
    assert RelPath(Posix, path, start) == Ok(if |rel| == 0 then CurDir else JoinPath(Posix, rel));
    if |rel| == 0 {
      SplitOfSeparatorFree(CurDir, '/');
      assert Filter([CurDir], NonEmpty) == [CurDir] + Filter([CurDir][1..], NonEmpty);
    } else {
      RelListParts(path, start);
      ComponentsOfJoin(rel);
    }
  }

  /** Every part is non-empty and free of `/`. */
  predicate CleanParts(parts: seq<string>) {
    forall k :: 0 <= k < |parts| ==> parts[k] != "" && '/' !in parts[k]
  }

  /** Every part of the list `relpath` joins is non-empty and free of `/`. */
  lemma RelListParts(path: string, start: string)
    ensures CleanParts(RelList(Posix, path, start))
  {
    var sl := Components(Posix, start);
    var pl := Components(Posix, path);
    ClimbOutOfParts(sl, pl);
    assert RelList(Posix, path, start) == Repeat(ParDir, |sl| - CommonLength(Posix, sl, pl)) + pl[CommonLength(Posix, sl, pl)..];
  }

  /** The same, for any lists whose path components are clean. */
  lemma ClimbOutOfParts(sl: seq<string>, pl: seq<string>)
    requires CleanParts(pl)
    ensures var i := CommonLength(Posix, sl, pl); CleanParts(Repeat(ParDir, |sl| - i) + pl[i..])
  {
    var i := CommonLength(Posix, sl, pl);
    CleanTail(pl, i);
    ClimbPartsClean(|sl| - i, pl[i..]);
  }

  lemma CleanTail(parts: seq<string>, i: nat)
    requires CleanParts(parts) && i <= |parts|
    ensures CleanParts(parts[i..])
  {
    assert forall k :: 0 <= k < |parts[i..]| ==> parts[i..][k] == parts[i + k];
  }

  /** `..`s followed by non-empty, separator-free components are all
      non-empty and separator-free. */
  lemma ClimbPartsClean(n: nat, rest: seq<string>)
    requires CleanParts(rest)
    ensures CleanParts(Repeat(ParDir, n) + rest)
  {
    var rel := Repeat(ParDir, n) + rest;
    forall k | 0 <= k < |rel| ensures rel[k] != "" && '/' !in rel[k] {
      if k >= n {
        assert rel[k] == rest[k - n];
      } else {
        assert rel[k] == ParDir;
      }
    }
  }

  /** With equal drives, `start` is an ancestor exactly when all its components match. */
  lemma AncestorIffAllMatch(f: Flavour, path: string, start: string)
    requires NormCase(f, SplitDrive(f, start).0) == NormCase(f, SplitDrive(f, path).0)
    ensures IsAncestor(f, start, path) <==>
      CommonLength(f, Components(f, start), Components(f, path)) == |Components(f, start)|
  {
    var sl := Components(f, start);
    var pl := Components(f, path);
  }

  /** When no component of `value` starts with `..`, a root is kept exactly
      when it is an ancestor of `value`, and then the result is the rest of
      `value`'s components (or `.` for the root itself). */
  lemma RelPathKeptIffAncestor(f: Flavour, value: string, start: string)
    requires value != ""
    requires var pl := Components(f, value); forall k :: 0 <= k < |pl| ==> !StartsWith(pl[k], ParDir)
    ensures Keeps(RelPath(f, value, start)) <==> IsAncestor(f, start, value)
    ensures IsAncestor(f, start, value) ==>
      var rest := Components(f, value)[|Components(f, start)|..];
      RelPath(f, value, start) == Ok(if |rest| == 0 then CurDir else JoinPath(f, rest))
  {
    if NormCase(f, SplitDrive(f, start).0) == NormCase(f, SplitDrive(f, value).0) {
      AncestorIffAllMatch(f, value, start);
      if CommonLength(f, Components(f, start), Components(f, value)) < |Components(f, start)| {
        NonAncestorClimbs(f, value, start);
      } else {
        AncestorKept(f, value, start);
      }
    }
  }

  /** A root whose components are not all matched is climbed out of with `..`. */
  lemma NonAncestorClimbs(f: Flavour, value: string, start: string)
    requires value != ""
    requires NormCase(f, SplitDrive(f, start).0) == NormCase(f, SplitDrive(f, value).0)
    requires CommonLength(f, Components(f, start), Components(f, value)) < |Components(f, start)|
    ensures RelPath(f, value, start).Ok? && StartsWith(RelPath(f, value, start).value, ParDir)
  {
    var rel := RelList(f, value, start);
    assert RelPath(f, value, start) == Ok(if |rel| == 0 then CurDir else JoinPath(f, rel));
    assert rel[0] == ParDir;
    JoinStartsWithHead(rel, Sep(f));
  }

  /** A root whose components are all matched gives the rest of `value`. */
  lemma AncestorKept(f: Flavour, value: string, start: string)
    requires value != ""
    requires NormCase(f, SplitDrive(f, start).0) == NormCase(f, SplitDrive(f, value).0)
    requires var pl := Components(f, value); forall k :: 0 <= k < |pl| ==> !StartsWith(pl[k], ParDir)
    requires CommonLength(f, Components(f, start), Components(f, value)) == |Components(f, start)|
    ensures var rest := Components(f, value)[|Components(f, start)|..];
            RelPath(f, value, start) == Ok(if |rest| == 0 then CurDir else JoinPath(f, rest))
    ensures Keeps(RelPath(f, value, start))
  {
    var sl := Components(f, start);
    var pl := Components(f, value);
    var i := CommonLength(f, sl, pl);
    var rel := RelList(f, value, start);
    assert RelPath(f, value, start) == Ok(if |rel| == 0 then CurDir else JoinPath(f, rel));
    assert rel == pl[i..];
    if |rel| > 0 {
      assert rel[0] == pl[i];
      if StartsWith(JoinPath(f, rel), ParDir) {
        JoinShortHead(rel, Sep(f));
      }
    }
  }

  /** A `..` at the start of a join of separator-free, non-empty parts lies inside the first part. */
  lemma JoinShortHead(parts: seq<string>, d: char)
    requires |parts| > 0 && d != '.'
    requires forall i :: 0 <= i < |parts| ==> parts[i] != "" && d !in parts[i]
    requires StartsWith(Join(parts, d), ParDir)
    ensures StartsWith(parts[0], ParDir)
  {
    JoinStartsWithHead(parts, d);
    var s := Join(parts, d);
    if |parts| > 1 {
      assert s == parts[0] + [d] + Join(parts[1..], d);
      assert s[|parts[0]|] == d;
    }
  }

  /** `min(candidates, key=len)`: the first candidate of least length. */
  function FirstShortest(xs: seq<string>): (r: string)
    requires |xs| > 0
    ensures r in xs
    ensures forall i :: 0 <= i < |xs| ==> |r| <= |xs[i]|
    ensures exists i :: 0 <= i < |xs| && xs[i] == r && forall j :: 0 <= j < i ==> |xs[j]| > |r|
  {
    if |xs| == 1 then xs[0]
    else
      var rest := FirstShortest(xs[1..]);
      if |xs[0]| <= |rest| then xs[0]
      else
        var i :| 0 <= i < |xs[1..]| && xs[1..][i] == rest && forall j :: 0 <= j < i ==> |xs[1..][j]| > |rest|;
        assert xs[i + 1] == rest;
        rest
  }

  /** The shortest of a list followed by a fallback: never longer than the
      fallback, and taken from the list whenever the list has an entry no
      longer than the fallback. */
  lemma FirstShortestWithFallback(xs: seq<string>, v: string)
    ensures var r := FirstShortest(xs + [v]);
            && |r| <= |v|
            && (r == v || r in xs)
            && (forall x :: x in xs ==> |r| <= |x|)
            && ((exists x :: x in xs && |x| <= |v|) ==> r in xs)
  {
    var c := xs + [v];
    var r := FirstShortest(c);
    assert c[|xs|] == v;
    forall x | x in xs ensures |r| <= |x| {
      var k :| 0 <= k < |xs| && xs[k] == x;
      assert c[k] == x;
    }
    if exists x :: x in xs && |x| <= |v| {
      var x :| x in xs && |x| <= |v|;
      var k :| 0 <= k < |xs| && xs[k] == x;
      var i :| 0 <= i < |c| && c[i] == r && forall j :: 0 <= j < i ==> |c[j]| > |r|;
      assert c[k] == x;
      assert i < |xs|;
      assert c[i] == xs[i];
    }
  }

  /** `_shortest_relative_path`: the shortest relative path of `value` under
      the roots, falling back to `value`; on a tie the earlier candidate wins,
      so a relative path beats `value` itself. */
  function ShortestRelativePath(f: Flavour, value: string, roots: seq<string>): (r: string)
    ensures |r| <= |value|
    ensures r == value || r in RelativePaths(f, value, roots)
    ensures forall x :: x in RelativePaths(f, value, roots) ==> |r| <= |x|
    ensures (exists x :: x in RelativePaths(f, value, roots) && |x| <= |value|) ==> r in RelativePaths(f, value, roots)
  {
    var rels := RelativePaths(f, value, roots);
    FirstShortestWithFallback(rels, value);
    FirstShortest(rels + [value])
  }

  predicate IsAbsPosix(p: string) {
    |p| > 0 && p[0] == '/'
  }

  /** `format_fname` under `posixpath`: names like `{built-in}` and `<frozen>`
      are kept; a file under the application root becomes `./` plus its
      relative path; any other absolute file is shown as `<...>` relative to
      the closest `sys.path` entry. */
  function FormatFname(value: string, rootPath: string, sysPath: seq<string>): (r: string)
    ensures StartsWith(value, "{") || StartsWith(value, "<") ==> r == value
    ensures !(StartsWith(value, "{") || StartsWith(value, "<")) ==>
      StartsWith(r, "./") || (StartsWith(r, "<") && EndsWith(r, ">"))
  {
    if StartsWith(value, "{") || StartsWith(value, "<") then value
    else
      var v := if IsAbsPosix(value) then ShortestRelativePath(Posix, value, [rootPath]) else value;
      if !IsAbsPosix(v) then
        Enclosed("./", v, "");
        assert "./" + v + "" == "./" + v;
        "./" + v
      else
        var shown := ShortestRelativePath(Posix, v, sysPath);
        Enclosed("<", shown, ">");
        "<" + shown + ">"
  }

  /** The absolute path with the given drive and components. */
  function AbsPath(f: Flavour, drive: string, comps: seq<string>): string {
    drive + [Sep(f)] + JoinPath(f, comps)
  }

  predicate ValidDrive(f: Flavour, drive: string) {
    if f.Posix? then drive == "" else |drive| == 2 && drive[1] == ':'
  }

  /** An absolute path splits back into its drive and components. */
  lemma AbsPathComponents(f: Flavour, drive: string, comps: seq<string>)
    requires ValidDrive(f, drive)
    requires |comps| >= 1
    requires forall i :: 0 <= i < |comps| ==> comps[i] != "" && Sep(f) !in comps[i]
    ensures SplitDrive(f, AbsPath(f, drive, comps)).0 == drive
    ensures Components(f, AbsPath(f, drive, comps)) == comps
  {
    var p := AbsPath(f, drive, comps);
    var rest := [Sep(f)] + JoinPath(f, comps);
    if f.Nt? {
      assert p[1] == ':' && p[..2] == drive && p[2..] == rest;
    } else {
      assert p == rest;
    }
    assert SplitDrive(f, p).1 == rest;
    var parts := [""] + comps;
    assert parts[1..] == comps;
    assert Join(parts, Sep(f)) == rest;
    SplitJoin(parts, Sep(f));
    FilterConcat([""], comps, NonEmpty);
    FilterAllKept(comps, NonEmpty);
    assert Filter([""], NonEmpty) == [];
  }

  /** `relpath` computed from the two component lists. */
  lemma RelPathFromComponents(f: Flavour, path: string, start: string, sl: seq<string>, pl: seq<string>)
    requires path != ""
    requires NormCase(f, SplitDrive(f, start).0) == NormCase(f, SplitDrive(f, path).0)
    requires Components(f, start) == sl && Components(f, path) == pl
    ensures var rel := Repeat(ParDir, |sl| - CommonLength(f, sl, pl)) + pl[CommonLength(f, sl, pl)..];
            RelPath(f, path, start) == if |rel| == 0 then Ok(CurDir) else Ok(JoinPath(f, rel))
  {
  }

  /** Component lists that agree one by one under the flavour's comparison. */
  predicate SameComponents(f: Flavour, xs: seq<string>, ys: seq<string>) {
    |xs| == |ys| && forall k :: 0 <= k < |xs| ==> NormCase(f, xs[k]) == NormCase(f, ys[k])
  }

  lemma {:induction false} CommonLengthOfExtension(f: Flavour, top: seq<string>, top': seq<string>, below: seq<string>)
    requires SameComponents(f, top, top')
    ensures CommonLength(f, top, top' + below) == |top|
    decreases |top|
  {
    if |top| > 0 {
      assert (top' + below)[0] == top'[0];
      assert (top' + below)[1..] == top'[1..] + below;
      CommonLengthOfExtension(f, top[1..], top'[1..], below);
    }
  }

  /** `relpath` of a descendant: the components below the ancestor, joined,
      in the case the value spells them. */
  lemma RelPathOfDescendant(f: Flavour, drive: string, top: seq<string>, top': seq<string>, below: seq<string>)
    requires ValidDrive(f, drive)
    requires |top| >= 1 && |below| >= 1 && SameComponents(f, top, top')
    requires forall i :: 0 <= i < |top| ==> top[i] != "" && Sep(f) !in top[i]
    requires forall i :: 0 <= i < |top'| ==> top'[i] != "" && Sep(f) !in top'[i]
    requires forall i :: 0 <= i < |below| ==> below[i] != "" && Sep(f) !in below[i]
    ensures RelPath(f, AbsPath(f, drive, top' + below), AbsPath(f, drive, top)) == Ok(JoinPath(f, below))
  {
    var p := AbsPath(f, drive, top' + below);
    var st := AbsPath(f, drive, top);
    assert |p| >= 1;
    AbsPathComponents(f, drive, top);
    AbsPathComponents(f, drive, top' + below);
    CommonLengthOfExtension(f, top, top', below);
    RelPathFromComponents(f, p, st, top, top' + below);
    assert (top' + below)[|top|..] == below;
    assert Repeat(ParDir, |top| - |top|) + (top' + below)[|top|..] == below;
  }

  /** With roots `top` and `top + mid`, a value `top + mid + below` has the
      relative paths `mid + below` and `below`, in that order. */
  lemma RelativePathsOfNestedRoots(f: Flavour, drive: string, top: seq<string>, mid: seq<string>, below: seq<string>)
    requires ValidDrive(f, drive)
    requires |top| >= 1 && |mid| >= 1 && |below| >= 1
    requires forall i :: 0 <= i < |top| ==> top[i] != "" && Sep(f) !in top[i] && !StartsWith(top[i], ParDir)
    requires forall i :: 0 <= i < |mid| ==> mid[i] != "" && Sep(f) !in mid[i] && !StartsWith(mid[i], ParDir)
    requires forall i :: 0 <= i < |below| ==> below[i] != "" && Sep(f) !in below[i] && !StartsWith(below[i], ParDir)
    ensures RelativePaths(f, AbsPath(f, drive, top + mid + below), [AbsPath(f, drive, top), AbsPath(f, drive, top + mid)])
            == [JoinPath(f, mid + below), JoinPath(f, below)]
  {
    var value := AbsPath(f, drive, top + mid + below);
    assert top + mid + below == top + (mid + below);
    RelPathOfDescendant(f, drive, top, top, mid + below);
    RelPathOfDescendant(f, drive, top + mid, top + mid, below);
    NoParDirHead(mid + below, Sep(f));
    NoParDirHead(below, Sep(f));
    RelativePathsPair(f, value, AbsPath(f, drive, top), AbsPath(f, drive, top + mid));
  }

  lemma RelativePathsPair(f: Flavour, value: string, a: string, b: string)
    requires Keeps(RelPath(f, value, a)) && Keeps(RelPath(f, value, b))
    ensures RelativePaths(f, value, [a, b]) == [RelPath(f, value, a).value, RelPath(f, value, b).value]
  {
    assert [a, b] == [a] + [b];
    RelativePathsConcat(f, value, [a], [b]);
    RelativePathsOfOneRoot(f, value, a);
    RelativePathsOfOneRoot(f, value, b);
  }

  /** A join whose first part does not start with `..` does not either. */
  lemma NoParDirHead(parts: seq<string>, d: char)
    requires |parts| > 0 && d != '.' && !StartsWith(parts[0], ParDir)
    requires forall i :: 0 <= i < |parts| ==> parts[i] != "" && d !in parts[i]
    ensures !StartsWith(Join(parts, d), ParDir)
  {
    if StartsWith(Join(parts, d), ParDir) {
      JoinShortHead(parts, d);
    }
  }

  /** `relpath` between siblings under a common root climbs out with `..`. */
  lemma RelPathOfNonDescendant(f: Flavour, drive: string, a: seq<string>, b: seq<string>)
    requires ValidDrive(f, drive)
    requires |a| >= 1 && |b| >= 1
    requires forall i :: 0 <= i < |a| ==> a[i] != "" && Sep(f) !in a[i]
    requires forall i :: 0 <= i < |b| ==> b[i] != "" && Sep(f) !in b[i]
    requires NormCase(f, a[0]) != NormCase(f, b[0])
    ensures RelPath(f, AbsPath(f, drive, a), AbsPath(f, drive, b)).Ok?
    ensures StartsWith(RelPath(f, AbsPath(f, drive, a), AbsPath(f, drive, b)).value, ParDir)
  {
    var p := AbsPath(f, drive, a);
    assert |p| >= 1;
    AbsPathComponents(f, drive, a);
    AbsPathComponents(f, drive, b);
    RelPathFromComponents(f, p, AbsPath(f, drive, b), b, a);
    var rel := Repeat(ParDir, |b|) + a;
    assert CommonLength(f, b, a) == 0;
    assert rel[0] == ParDir;
    JoinStartsWithHead(rel, Sep(f));
  }

  lemma NotParDir(s: string)
    requires |s| > 0 && s[0] != '.'
    ensures !StartsWith(s, ParDir)
  {
  }

  lemma JoinThree(a: string, b: string, c: string, d: char)
    ensures Join([a, b], d) == a + [d] + b
    ensures Join([a, b, c], d) == a + [d] + b + [d] + c
  {
    assert [a, b][1..] == [b];
    assert [a, b, c][1..] == [b, c];
    assert [b, c][1..] == [c];
    assert Join([b, c], d) == b + [d] + c;
    assert a + [d] + (b + [d] + c) == a + [d] + b + [d] + c;
  }

  /** `_relative_paths("/foo/bar/baz", ["/foo", "/foo/bar"])` is
      `["bar/baz", "baz"]`, and the shortest of them is `"baz"`. */
  lemma PosixNestedRootsExample()
    ensures RelativePaths(Posix, "/foo/bar/baz", ["/foo", "/foo/bar"]) == ["bar/baz", "baz"]
    ensures ShortestRelativePath(Posix, "/foo/bar/baz", ["/foo", "/foo/bar"]) == "baz"
  {
    PosixNestedRelativePaths();
    FirstShortestWithFallback(["bar/baz", "baz"], "/foo/bar/baz");
    var r := FirstShortest(["bar/baz", "baz"] + ["/foo/bar/baz"]);
    assert r == "bar/baz" || r == "baz";
    assert |r| <= 3;
  }

  lemma PosixNestedRelativePaths()
    ensures RelativePaths(Posix, "/foo/bar/baz", ["/foo", "/foo/bar"]) == ["bar/baz", "baz"]
  {
    assert ["foo"] + ["bar"] == ["foo", "bar"];
    assert ["foo"] + ["bar"] + ["baz"] == ["foo", "bar", "baz"];
    assert ["bar"] + ["baz"] == ["bar", "baz"];
    NotParDir("foo");
    NotParDir("bar");
    NotParDir("baz");
    JoinThree("foo", "bar", "baz", '/');
    JoinThree("bar", "baz", "", '/');
    assert AbsPath(Posix, "", ["foo"]) == "/foo";
    assert AbsPath(Posix, "", ["foo"] + ["bar"]) == "/foo/bar";
    assert AbsPath(Posix, "", ["foo"] + ["bar"] + ["baz"]) == "/foo/bar/baz";
    assert JoinPath(Posix, ["bar"] + ["baz"]) == "bar/baz";
    assert JoinPath(Posix, ["baz"]) == "baz";
    RelativePathsOfNestedRoots(Posix, "", ["foo"], ["bar"], ["baz"]);
  }

  /** `_relative_paths("/foo/bar", ["/baz"])` is empty, so the shortest
      relative path is the value itself. */
  lemma PosixUnrelatedRootExample()
    ensures RelativePaths(Posix, "/foo/bar", ["/baz"]) == []
    ensures ShortestRelativePath(Posix, "/foo/bar", ["/baz"]) == "/foo/bar"
  {
    assert AbsPath(Posix, "", ["foo", "bar"]) == "/foo/bar";
    assert AbsPath(Posix, "", ["baz"]) == "/baz";
    RelPathOfNonDescendant(Posix, "", ["foo", "bar"], ["baz"]);
  }

  /** Under `ntpath` the root matches whatever its case, and the result keeps
      the case of the value: `c:\\Foo\\Bar` under `c:\\foo` gives `Bar`. */
  lemma NtIgnoresCaseExample()
    ensures RelPath(Nt, "c:\\Foo\\Bar", "c:\\foo") == Ok("Bar")
  {
    assert AbsPath(Nt, "c:", ["foo"]) == "c:\\foo";
    assert ["Foo"] + ["Bar"] == ["Foo", "Bar"];
    JoinThree("Foo", "Bar", "", '\\');
    assert AbsPath(Nt, "c:", ["Foo"] + ["Bar"]) == "c:\\Foo\\Bar";
    assert Lower("Foo") == Lower("foo");
    RelPathOfDescendant(Nt, "c:", ["foo"], ["Foo"], ["Bar"]);
    assert JoinPath(Nt, ["Bar"]) == "Bar";
  }
  /** A path whose third character is not `?` has no `\\?\UNC\` prefix. */
  lemma NotLongUnc(p: string)
    requires |p| > 2 && p[2] != '?'
    ensures !(|p| >= 8 && Lower(p[..8]) == UncPrefix)
  {
    assert |p| >= 8 ==> Lower(p[..8])[2] != UncPrefix[2];
  }

  /** A path opening with two backslashes, no `?` after them, a backslash
      at `i` closing the server and the share running up to `j` (the next
      backslash or the end) has the UNC drive `p[..j]`. */
  lemma UncSplitAt(p: string, i: nat, j: nat)
    requires |p| > 2 && p[..2] == "\\\\" && p[2] != '?'
    requires 2 <= i < j <= |p| && p[i] == '\\'
    requires forall m :: 2 <= m < i ==> p[m] != '\\'
    requires forall m :: i < m < j ==> p[m] != '\\'
    requires j < |p| ==> p[j] == '\\'
    ensures SplitDrive(Nt, p) == (p[..j], p[j..])
  {
    assert SplitDrive(Nt, p) == SplitUnc(p);
    NotLongUnc(p);
    assert FindBackslash(p, 2) == i;
    assert FindBackslash(p, i + 1) == if j < |p| then j else -1;
  }

  /** Under `ntpath`, `\\server\share` followed by nothing or by a rooted
      rest is split into that drive and the rest, when the server holds no
      backslash and does not start with `?`. */
  lemma UncDriveSplit(server: string, share: string, rest: string)
    requires server != "" && server[0] != '?' && '\\' !in server
    requires share != "" && '\\' !in share
    requires rest == "" || rest[0] == '\\'
    ensures SplitDrive(Nt, "\\\\" + server + "\\" + share + rest) == ("\\\\" + server + "\\" + share, rest)
  {
    var d := "\\\\" + server + "\\" + share;
    var p := d + rest;
    var i := 2 + |server|;
    assert p[..2] == "\\\\" && p[2] == server[0] && p[i] == '\\';
    assert forall m :: 2 <= m < i ==> p[m] == server[m - 2];
    assert forall m :: i < m < |d| ==> p[m] == share[m - i - 1];
    assert p[..|d|] == d && p[|d|..] == rest;
    UncSplitAt(p, i, |d|);
  }

  /** Paths on different UNC shares have no relative path under `ntpath`:
      `relpath` raises `ValueError`, as it does for different drive letters. */
  lemma UncSharesDiffer(server: string, share: string, rest: string, share': string, rest': string)
    requires server != "" && server[0] != '?' && '\\' !in server
    requires share != "" && '\\' !in share && share' != "" && '\\' !in share'
    requires rest == "" || rest[0] == '\\'
    requires rest' == "" || rest'[0] == '\\'
    requires Lower(share) != Lower(share')
    ensures RelPath(Nt, "\\\\" + server + "\\" + share + rest, "\\\\" + server + "\\" + share' + rest') == Err(ValueError)
  {
    UncDriveSplit(server, share, rest);
    UncDriveSplit(server, share', rest');
    var host := "\\\\" + server + "\\";
    LowerConcat(host, share);
    LowerConcat(host, share');
    assert (Lower(host) + Lower(share))[|host|..] == Lower(share);
    assert (Lower(host) + Lower(share'))[|host|..] == Lower(share');
    RelPathDrivesDiffer(Nt, host + share + rest, host + share' + rest');
  }

  /** Drives that differ under the flavour's comparison make `relpath` fail. */
  lemma RelPathDrivesDiffer(f: Flavour, path: string, start: string)
    requires path != ""
    requires NormCase(f, SplitDrive(f, start).0) != NormCase(f, SplitDrive(f, path).0)
    ensures RelPath(f, path, start) == Err(ValueError)
  {
  }

  /** `splitdrive(r'\\srv\a\x')` is `(r'\\srv\a', r'\x')`. */
  lemma NtUncDriveExample()
    ensures SplitDrive(Nt, "\\\\srv\\a\\x") == ("\\\\srv\\a", "\\x")
  {
    assert "\\\\srv\\a\\x" == "\\\\" + "srv" + "\\" + "a" + "\\x";
    assert "\\\\srv\\a" == "\\\\" + "srv" + "\\" + "a";
    assert "srv"[0] != '?' && '\\' !in "srv" && '\\' !in "a";
    UncDriveSplit("srv", "a", "\\x");
  }

  /** `relpath(r'\\srv\a\x', r'\\srv\b')` raises `ValueError`. */
  lemma NtUncSharesExample()
    ensures RelPath(Nt, "\\\\srv\\a\\x", "\\\\srv\\b") == Err(ValueError)
  {
    assert "\\\\srv\\a\\x" == "\\\\" + "srv" + "\\" + "a" + "\\x";
    assert "\\\\srv\\b" == "\\\\" + "srv" + "\\" + "b" + "";
    assert "srv"[0] != '?' && '\\' !in "srv" && '\\' !in "a" && '\\' !in "b";
    assert Lower("a")[0] != Lower("b")[0];
    UncSharesDiffer("srv", "a", "\\x", "b", "");
  }

  lemma {:induction false} JoinAppend(xs: seq<string>, ys: seq<string>, d: char)
    requires |xs| >= 1 && |ys| >= 1
    ensures Join(xs + ys, d) == Join(xs, d) + [d] + Join(ys, d)
    decreases |xs|
  {
    if |xs| == 1 {
      assert (xs + ys)[1..] == ys;
    } else {
      assert (xs + ys)[1..] == xs[1..] + ys;
      JoinAppend(xs[1..], ys, d);
    }
  }

  lemma RelativePathsSingle(f: Flavour, value: string, a: string)
    requires Keeps(RelPath(f, value, a))
    ensures RelativePaths(f, value, [a]) == [RelPath(f, value, a).value]
  {
    assert [a][1..] == [];
  }

  /** A source file below the application root is shown as `./` followed by
      its path relative to the root, whatever `sys.path` holds. */
  lemma FormatFnameUnderRoot(top: seq<string>, below: seq<string>, sysPath: seq<string>)
    requires |top| >= 1 && |below| >= 1
    requires forall i :: 0 <= i < |top| ==> top[i] != "" && '/' !in top[i]
    requires forall i :: 0 <= i < |below| ==> below[i] != "" && '/' !in below[i] && !StartsWith(below[i], ParDir)
    ensures FormatFname(AbsPath(Posix, "", top + below), AbsPath(Posix, "", top), sysPath)
            == "./" + JoinPath(Posix, below)
  {
    var value := AbsPath(Posix, "", top + below);
    var rel := JoinPath(Posix, below);
    ShortestUnderSingleRoot(top, below);
    JoinStartsWithHead(below, '/');
    assert rel[0] == below[0][0];
    assert value[0] == '/';
    assert !IsAbsPosix(rel);
  }

  /** A file outside the project root is shown in angle brackets, as its
      shortest path relative to a `sys.path` entry (or itself). */
  lemma FormatFnameOutsideRoot(a: seq<string>, b: seq<string>, sysPath: seq<string>)
    requires |a| >= 1 && |b| >= 1
    requires forall i :: 0 <= i < |a| ==> a[i] != "" && '/' !in a[i]
    requires forall i :: 0 <= i < |b| ==> b[i] != "" && '/' !in b[i]
    requires a[0] != b[0]
    ensures var value := AbsPath(Posix, "", a);
            FormatFname(value, AbsPath(Posix, "", b), sysPath) == "<" + ShortestRelativePath(Posix, value, sysPath) + ">"
  {
    var value := AbsPath(Posix, "", a);
    var root := AbsPath(Posix, "", b);
    RelPathOfNonDescendant(Posix, "", a, b);
    RelativePathsOfOneRoot(Posix, value, root);
    assert RelativePaths(Posix, value, [root]) == [];
    assert ShortestRelativePath(Posix, value, [root]) == value;
    assert value[0] == '/';
    assert !StartsWith(value, "{") && !StartsWith(value, "<") by {
      assert value[..1] == "/";
    }
  }

  lemma ShortestUnderSingleRoot(top: seq<string>, below: seq<string>)
    requires |top| >= 1 && |below| >= 1
    requires forall i :: 0 <= i < |top| ==> top[i] != "" && '/' !in top[i]
    requires forall i :: 0 <= i < |below| ==> below[i] != "" && '/' !in below[i] && !StartsWith(below[i], ParDir)
    ensures ShortestRelativePath(Posix, AbsPath(Posix, "", top + below), [AbsPath(Posix, "", top)])
            == JoinPath(Posix, below)
  {
    var value := AbsPath(Posix, "", top + below);
    var root := AbsPath(Posix, "", top);
    var rel := JoinPath(Posix, below);
    RelPathOfDescendant(Posix, "", top, top, below);
    NoParDirHead(below, '/');
    RelativePathsSingle(Posix, value, root);
    JoinAppend(top, below, '/');
    assert |rel| <= |value|;
    FirstShortestWithFallback([rel], value);
  }

  /** A bytes or text value, as `decode_text` receives it. */
  datatype TextLike = Str(text: string) | Bytes(data: seq<byte>)

  /** `bytes.decode("ascii", "replace")` for one byte. */
  function AsciiOrReplacement(b: byte): char {
    if b < 128 then (b as int) as char else '\U{FFFD}'
  }

  /** `decode_text`: text is returned unchanged; bytes are decoded as ASCII,
      each byte outside it becoming U+FFFD, so the length is kept. */
  function DecodeText(v: TextLike): (r: string)
    ensures v.Str? ==> r == v.text
    ensures v.Bytes? ==> |r| == |v.data|
    ensures v.Bytes? ==> forall i :: 0 <= i < |v.data| ==>
      (v.data[i] < 128 ==> r[i] as int == v.data[i] as int) && (v.data[i] >= 128 ==> r[i] == '\U{FFFD}')
  {
    match v
    case Str(s) => s
    case Bytes(b) => seq(|b|, i requires 0 <= i < |b| => AsciiOrReplacement(b[i]))
  }

  function AsciiBytes(s: string): (r: seq<byte>)
    requires forall i :: 0 <= i < |s| ==> (s[i] as int) < 128
    ensures |r| == |s|
  {
    seq(|s|, i requires 0 <= i < |s| => (s[i] as int) as byte)
  }

  /** Encoding ASCII text and decoding it for display gives the text back. */
  lemma DecodeAsciiRoundTrip(s: string)
    requires forall i :: 0 <= i < |s| ==> (s[i] as int) < 128
    ensures DecodeText(Bytes(AsciiBytes(s))) == s
  {
  }

  /** `b'abc \xff xyz'` decodes to a text that starts with `abc` and ends with `xyz`. */
  lemma DecodeTextNonAsciiExample()
    ensures var bytes: seq<byte> := [0x61, 0x62, 0x63, 0x20, 0xff, 0x20, 0x78, 0x79, 0x7a];
            DecodeText(Bytes(bytes)) == "abc \U{FFFD} xyz"
  {
  }
}
