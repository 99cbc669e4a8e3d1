# flask-debugtoolbar in Dafny

A functional model of the core of Flask-DebugToolbar, the Flask extension that
injects a debugging overlay into HTML responses. Three generations of the
package are modelled side by side:

- the current `flask_debugtoolbar` package (`src/flask_debugtoolbar`);
- the intermediate `flask_debugtoolbar` package (`flask_debugtoolbar/`);
- the original `flaskext.debugtoolbar` package (`flaskext/debugtoolbar/`).

What is modelled:

- **Response rewriting** (`Extension`, `LegacyExtension`):
  - redirect interception;
  - the gate that decides whether a response is decorated;
  - the position of the overlay (the last case-insensitive `</body>`, else the end of an `<!doctype html>` document, else nothing);
  - the splice itself;
  - the per-request toolbar store and its teardown;
  - the `process_view` fold in which a panel may replace the view.
- **Panel registry and activation** (`Registry`, `LegacyToolbar`, `Panels`):
  - dotted panel paths resolved through a cache;
  - unresolvable panels skipped, configured order kept;
  - the `fldt_active` cookie, percent-decoded and split on `;`, matched against each panel's DOM id.
- **The browser side of that cookie** (`Cookies`, `Percent`): the active-panel list toggle and the hide/show flag from `toolbar.js`, with `encodeURIComponent`, `decodeURIComponent` and Python's `unquote`.
- **Signed SQL queries** (`SqlPanel`): `is_select`, `dump_query` and `load_query` over an abstract signer, plus the panel's availability, subtitle and EXPLAIN prefixes.
- **Path and text helpers** (`Paths`, `Profiler`):
  - `_relative_paths`, `_shortest_relative_path`, `decode_text` and `format_fname` under POSIX and Windows path rules;
  - the legacy profiler's `format_fname` and `ncalls` column.
- **Small per-panel stores**:
  - the bounded template cache (`TemplatePanel`);
  - the per-thread log-record maps (`LogCapture`);
  - the mail store (`Mail`);
  - the route filter (`Routes`) and header filter (`Headers`);
  - the view-recording request-variables and settings panels (`ViewPanels`).

Strings are `seq<char>`; panels, toolbars, responses and stores are immutable
datatypes and maps; every hook a panel class may override, the Jinja renderer,
the text codec, gzip and the signer are function-valued parameters. `Results`
holds the `Option`/`Result` types and a `Failure` type naming the Python
exceptions involved. `Text` and `Seqs` hold helpers that model the Python
string and list operations used: `lower`, `rfind`, `split`, `join`, `strip`,
`%d` formatting and sorting.

Several members model one function that recurs, unchanged, in the older
packages:

- `Extension.ReplaceInsensitive` is also the legacy `replace_insensitive` (flaskext/debugtoolbar/__init__.py, lines 13-22).
- `Registry.RenderContext` is also both older `render_toolbar`s.
- `LogCapture.GetRecords`, `LogCapture.Emit` and `LogCapture.ClearRecords` are also the record maps of the legacy logger and the logbook panel.
- `Routes.ProcessRequest` and `Routes.NavSubtitle` are also the intermediate route panel.
- `SqlPanel.DumpQuery` is also the intermediate `dump_query`.
- `ViewPanels.ResetView` and `ViewPanels.RecordView` are also the settings panel's view hooks.

## Model

| member | source | states |
|---|---|---|
| Extension.ReplaceInsensitive | src/flask_debugtoolbar/__init__.py:36-47 | With no case-insensitive occurrence of the target the text comes back unchanged; otherwise exactly the last occurrence is replaced and every character before and after it is kept |
| Extension.ReplaceInsensitiveKeepsPrefix | src/flask_debugtoolbar/__init__.py:36-47 | Replacing the last match keeps the text before it as a prefix and the text after it as a suffix; the length changes by the replacement's length minus the target's |
| Extension.DefaultConfig | src/flask_debugtoolbar/__init__.py:119-138 | The defaults: enabled and query recording follow the app's debug flag, no host restriction, redirects intercepted, the built-in panel list |
| Extension.SetDefaults | src/flask_debugtoolbar/__init__.py:90-91 | `setdefault`: user-set keys keep their values, missing keys take the default, no other key appears |
| Extension.SetDefaultsIdempotent | src/flask_debugtoolbar/__init__.py:90-91 | Applying the defaults twice is the same as applying them once |
| Extension.DefaultsApplied | src/flask_debugtoolbar/__init__.py:90-100 | After defaults, the enabled flag is the user's if set and the debug flag otherwise; the secret-key test sees only the user's key |
| Extension.InitApp | src/flask_debugtoolbar/__init__.py:89-117 | RuntimeError exactly when the toolbar is enabled without a truthy SECRET_KEY; hooks are registered exactly when enabled; a disabled app loads no panel; an enabled one has every configured path in the panel cache |
| Extension.ShowToolbar | src/flask_debugtoolbar/__init__.py:165-175 | False for the toolbar's own blueprint; otherwise, with a non-empty host list, true exactly for a listed remote address, and with an empty one always true |
| Extension.HostsNarrowShowing | src/flask_debugtoolbar/__init__.py:165-175 | A host list only ever hides requests the empty list shows, and adding addresses to a list never hides a request it showed |
| Extension.RequestHooks | src/flask_debugtoolbar/__init__.py:193-194 | Each panel's `process_request` runs once, in order, on the request |
| Extension.ProcessRequest | src/flask_debugtoolbar/__init__.py:181-194 | A request that is not shown leaves the store alone; a shown one resets the store to a single fresh toolbar whose panels have run their request hook |
| Extension.FoldViewsSnoc | src/flask_debugtoolbar/__init__.py:212-216 | Folding one more panel hands it the view chosen so far, and its truthy return replaces that view |
| Extension.FoldViewsDefault | src/flask_debugtoolbar/panels/__init__.py:77-84 | Panels with the default hooks never replace the view and are left unchanged |
| Extension.ProcessView | src/flask_debugtoolbar/__init__.py:196-218 | Without a toolbar for the request the view and the store are returned unchanged; otherwise the chosen view and the request's new panels are the in-order fold of the panels' `process_view` hooks, and every other request's toolbar is kept |
| Extension.RunViewHooks | src/flask_debugtoolbar/__init__.py:212-218 | The loop over the panels computes the same view and panels as the fold: each truthy return replaces the view handed to the next panel |
| Extension.InterceptRedirect | src/flask_debugtoolbar/__init__.py:228-241 | Only a 301/302/303/304 with a non-empty location is intercepted; it becomes a 200 with no location, the rendered redirect page as body and that page's length as content length |
| Extension.InjectionPoint | src/flask_debugtoolbar/__init__.py:259-273 | The overlay goes at the last case-insensitive `</body>`, else at the end of a document starting with `<!doctype html>`, else nowhere |
| Extension.ResponseHooks | src/flask_debugtoolbar/__init__.py:277-278 | Each panel's `process_response` runs once, in order; the legacy loop (flaskext/debugtoolbar/__init__.py, lines 147-148) is the same |
| Extension.ProcessResponse | src/flask_debugtoolbar/__init__.py:220-291 | Without a toolbar the response is untouched. A response failing the status/sequence/HTML gate is returned after redirect handling only. A qualifying body that does not gunzip or decode raises that error. A qualifying response without an injection point triggers the warning and runs no panel hook. Otherwise the hooks run and the content length is that of the final bytes. Other requests' toolbars never change |
| Extension.InjectedTextRoundTrip | src/flask_debugtoolbar/__init__.py:252-289 | With inverse codec and gzip pairs, a readable body with an injection point is processed without error, and the decoded new body is the old text with the rendered toolbar inserted at the injection point; removing it gives the original text back |
| Extension.UnreadableBodyRaises | src/flask_debugtoolbar/__init__.py:252-257 | A gzip-encoded body that does not gunzip raises the gzip error; bytes that are not UTF-8, gunzipped or not, raise `UnicodeDecodeError` |
| Extension.TeardownThenUntouched | src/flask_debugtoolbar/__init__.py:293-296 | After teardown, a response for the same request passes through untouched |
| Extension.NotShownUntouched | src/flask_debugtoolbar/__init__.py:184-224 | A request that is not shown keeps its view and gets its response back unchanged |
| Extension.Teardown | src/flask_debugtoolbar/__init__.py:293-296 | The request's entry is removed, absence is tolerated, and every other entry is kept |
| Registry.SplitPath | flask_debugtoolbar/toolbar.py:21-22 | A dotless path is a ValueError; otherwise the module part, a dot and the dot-free class name rebuild the path |
| Registry.ImportPanel | src/flask_debugtoolbar/toolbar.py:64-80 | The result is cached under the path, a failed import is cached as None, other entries are kept, and a miss imports the path with `:` read as `.` |
| Registry.ImportPanelIdempotent | src/flask_debugtoolbar/toolbar.py:66-71 | A second lookup is a cache hit: same class, same cache, whatever the modules now hold |
| Registry.IterPanels | src/flask_debugtoolbar/toolbar.py:56-62 | Every configured path ends up cached, old entries are kept, and the yielded classes are the resolved ones in configured order |
| Registry.IterPanelsImports | src/flask_debugtoolbar/toolbar.py:56-80 | Every configured path that was not cached before is cached as the outcome of importing it |
| Registry.ResolvedMembers | src/flask_debugtoolbar/toolbar.py:59-62 | Every resolvable path contributes its class, and every yielded class comes from a configured path |
| Registry.LoadPanels | src/flask_debugtoolbar/toolbar.py:50-54 | `init_app` is called for exactly the classes the configured paths resolve to, in configured order, so never more than the number of paths |
| Registry.Activation | src/flask_debugtoolbar/toolbar.py:31-32 | A missing cookie parses to the single empty id; the parsed list is never empty and no id holds a `;` |
| Registry.CreatePanels | src/flask_debugtoolbar/toolbar.py:29-42 | One panel per class in order, each with the class's name and initial state, active exactly when its DOM id is listed; the shared context gains the template context |
| Registry.NewToolbar | src/flask_debugtoolbar/toolbar.py:20-27 | The template context holds only the static path; every configured path is cached, newly cached ones as their import outcome, old entries kept; one panel per resolvable path with its class name and data, active exactly when its DOM id is in the parsed cookie; the shared context gains the static path exactly when a panel was created |
| Registry.NoCookieNoActivePanel | src/flask_debugtoolbar/toolbar.py:31-40 | Without the cookie no panel is active, because a DOM id is never empty |
| Registry.CookieRoundTripActivates | src/flask_debugtoolbar/toolbar.py:31-32 | A cookie holding the encoded `;`-join of ASCII ids parses back to exactly those ids |
| Registry.RenderContext | src/flask_debugtoolbar/toolbar.py:44-48 | The render context is a copy of the template context plus `panels`; the toolbar itself is not changed |
| Panels.DomId | src/flask_debugtoolbar/panels/__init__.py:55-56 | The DOM id is `flDebug`, the name without spaces, and `Panel`; it has no space and is never empty |
| Panels.DomIdDeterminedBySpacelessName | src/flask_debugtoolbar/panels/__init__.py:55-56 | Two names share a DOM id exactly when they agree once spaces are removed |
| Panels.Instantiate | src/flask_debugtoolbar/panels/__init__.py:18-26 | A new panel is inactive; every key of the given context is in the shared class-level context with its given value, and other shared keys are kept |
| Cookies.Read | src/flask_debugtoolbar/static/js/toolbar.js:2 | Reading finds no cookie exactly when it is unset; a value without `%` reads as itself; the only failure is a URIError, and only on a value holding `%` |
| Cookies.Write | src/flask_debugtoolbar/static/js/toolbar.js:2 | Writing keeps other cookies, and the stored value reads back as exactly the written value, whatever characters it holds |
| Cookies.Delete | src/flask_debugtoolbar/static/js/toolbar.js:2 | Writing null with a past expiry removes only that cookie |
| Cookies.ActiveList | src/flask_debugtoolbar/static/js/toolbar.js:32-33 | A missing or empty cookie gives the empty list; otherwise the list joins back to the cookie and holds no `;` |
| Cookies.Toggle | src/flask_debugtoolbar/static/js/toolbar.js:34-43 | Turning off leaves the id absent; turning on leaves it exactly once, at the end; every other id is kept and no id is added |
| Cookies.ToggleKeepsOthersInOrder | src/flask_debugtoolbar/static/js/toolbar.js:34 | The other ids keep their relative order across a toggle |
| Cookies.StoreActive | src/flask_debugtoolbar/static/js/toolbar.js:45-53 | An empty list deletes the cookie; otherwise it holds the encoded `;`-join; other cookies are untouched |
| Cookies.ClickSwitch | src/flask_debugtoolbar/static/js/toolbar.js:26-54 | A click changes no cookie but `fldt_active`, and a stored list that does not decode aborts the click with the cookies unchanged |
| Cookies.ServerSeesClick | src/flask_debugtoolbar/static/js/toolbar.js:26-54 | After a click, the server's cookie parsing lists the panel exactly when it was inactive before, when ids are ASCII and the stored list decodes to ASCII |
| Cookies.ClientReadsBackList | src/flask_debugtoolbar/static/js/toolbar.js:32-53 | A stored non-empty list of non-empty, `;`-free ids decodes and splits back to the same list |
| Cookies.HideToolbar | src/flask_debugtoolbar/static/js/toolbar.js:147-152 | Hiding with `setCookie` makes `fldt` read back as `hide`; without it no cookie changes |
| Cookies.ShowToolbar | src/flask_debugtoolbar/static/js/toolbar.js:167-170 | After showing, `fldt` reads as absent |
| Cookies.Init | src/flask_debugtoolbar/static/js/toolbar.js:104-108 | `init` aborts exactly when `fldt` does not decode, hides exactly when it reads as a non-empty value and then keeps the cookies, and otherwise shows and deletes `fldt` |
| Cookies.HideShowRoundTrip | src/flask_debugtoolbar/static/js/toolbar.js:104-108 | The next page starts hidden after a hide and shown after a show, and a page that started shown starts shown again |
| Percent.Unquote | src/flask_debugtoolbar/toolbar.py:32 | Decoding never lengthens a string and leaves a string without `%` unchanged |
| Percent.EncodeUriComponent | src/flask_debugtoolbar/static/js/toolbar.js:2 | A string of unreserved characters is encoded as itself |
| Percent.DecodeEscape | src/flask_debugtoolbar/static/js/toolbar.js:2 | An escape run consumes 3, 6, 9 or 12 characters of the input; a `%` without two hex digits after it is a URIError, and a single ASCII escape decodes to its character |
| Percent.DecodeUriComponent | src/flask_debugtoolbar/static/js/toolbar.js:2 | A string without `%` decodes to itself; decoding never lengthens a string; the only failure is a URIError, on a string holding `%` |
| Percent.DecodeEncodeRoundTrip | src/flask_debugtoolbar/static/js/toolbar.js:2 | `decodeURIComponent` inverts `encodeURIComponent` on every string |
| Percent.UnquoteEncodeRoundTrip | src/flask_debugtoolbar/toolbar.py:32 | Python's unquote inverts the browser's encodeURIComponent on ASCII text |
| Percent.HexDigit | src/flask_debugtoolbar/toolbar.py:32 | The hex digit written for a value reads back as that value |
| SqlPanel.IsSelectIff | src/flask_debugtoolbar/panels/sqlalchemy.py:51-57 | A statement is a select exactly when, after leading whitespace, it begins with `select` in any case |
| SqlPanel.LeadingBlanks | src/flask_debugtoolbar/panels/sqlalchemy.py:52 | Stripping the lowered statement removes exactly the leading whitespace |
| SqlPanel.DumpQuery | src/flask_debugtoolbar/panels/sqlalchemy.py:60-67 | A token is produced only for non-empty params and a select statement; then it is the signer's output on the pair |
| SqlPanel.LoadQuery | src/flask_debugtoolbar/panels/sqlalchemy.py:70-80 | A bad signature, a payload that cannot be unpacked or a non-select statement aborts 406; a wrong-length payload is a ValueError and a non-string statement an AttributeError; an accepted query is the unpacked select |
| SqlPanel.DumpLoadRoundTrip | src/flask_debugtoolbar/panels/sqlalchemy.py:45-80 | With a signer whose loads inverts its dumps under salt `fdt-sql-query`, loading a dumped token gives back the statement and params |
| SqlPanel.LoadRefusesNonSelect | src/flask_debugtoolbar/panels/sqlalchemy.py:76-78 | A validly signed non-select payload is refused with 406 |
| SqlPanel.HasContent | src/flask_debugtoolbar/panels/sqlalchemy.py:110-111 | The panel has content exactly when queries were recorded or it shows the unavailable page |
| SqlPanel.NavSubtitle | src/flask_debugtoolbar/panels/sqlalchemy.py:116-123 | `Unavailable` exactly with no queries and no availability; otherwise `1 query` or `N queries` |
| SqlPanel.NoContentMeansZeroQueries | src/flask_debugtoolbar/panels/sqlalchemy.py:110-123 | A panel without content reports `0 queries` |
| SqlPanel.ExplainStatement | src/flask_debugtoolbar/panels/sqlalchemy.py:171-175 | With explain, the statement gets `EXPLAIN QUERY PLAN` and a newline for pysqlite, `EXPLAIN` and a newline otherwise; without explain it is unchanged |
| SqlPanel.ExplainedIsNotSelect | src/flask_debugtoolbar/panels/sqlalchemy.py:171-177 | An explained statement is not itself a select |
| SqlPanel.LegacyLoadQuery | flask_debugtoolbar/panels/sqlalchemy.py:35-45 | The intermediate `load_query` reads `request.args['query']` (KeyError without it) and then applies the same 406 rules |
| SqlPanel.LegacyLoadIgnoresData | flask_debugtoolbar/panels/sqlalchemy.py:35-37 | Its `data` argument has no effect on the result |
| SqlPanel.LegacyHasContent | flask_debugtoolbar/panels/sqlalchemy.py:55-59 | Content is shown whenever a library is missing, and otherwise exactly when queries exist |
| SqlPanel.LegacyNavSubtitle | flask_debugtoolbar/panels/sqlalchemy.py:70-76 | `Unavailable` exactly when a library is missing; otherwise the pluralised query count |
| SqlPanel.MissingLibraryLines | flask_debugtoolbar/panels/sqlalchemy.py:85-92 | The message lists exactly the missing libraries, framed by the header and the list tags |
| SqlPanel.LegacyMissingMessage | flask_debugtoolbar/panels/sqlalchemy.py:84-92 | A message exists exactly when a library is missing, and its text keeps the header first and the list end last |
| SqlPanel.LegacyExplainStatement | flask_debugtoolbar/panels/sqlalchemy.py:126-129 | The intermediate EXPLAIN prefixes end in a space instead of a newline |
| Paths.SplitDrive | src/flask_debugtoolbar/utils.py:65 | The drive and the rest concatenate back to the path; POSIX paths have no drive; under Windows rules an `x:` prefix is the drive, and a UNC drive leaves a rest that is empty or starts with a backslash |
| Paths.UncDriveSplit | src/flask_debugtoolbar/utils.py:65 | Under Windows rules `\\server\share` followed by nothing or a rooted rest splits into exactly that drive and that rest |
| Paths.UncSharesDiffer | src/flask_debugtoolbar/utils.py:65 | Under Windows rules relpath between paths on two shares whose names differ beyond case raises ValueError |
| Paths.NtUncDriveExample | src/flask_debugtoolbar/utils.py:65 | `\\srv\a\x` has the drive `\\srv\a` and the rest `\x` |
| Paths.NtUncSharesExample | src/flask_debugtoolbar/utils.py:65 | relpath from `\\srv\b` to `\\srv\a\x` raises ValueError |
| Paths.RelPathDrivesDiffer | src/flask_debugtoolbar/utils.py:65 | Drives that differ under the flavour's comparison make relpath raise ValueError |
| Paths.Components | src/flask_debugtoolbar/utils.py:65 | Components are non-empty and free of the separator |
| Paths.CommonLength | src/flask_debugtoolbar/utils.py:65 | The common prefix of two component lists matches component by component, case-folded on Windows, and stops at the first mismatch |
| Paths.RelPath | src/flask_debugtoolbar/utils.py:65 | An empty path is a ValueError, and ValueError is the only failure |
| Paths.RelPathRoundTrip | src/flask_debugtoolbar/utils.py:65 | For a normalised non-empty path, relpath succeeds, and applying its components to the start directory (`..` climbing, names descending) gives back the path's components |
| Paths.AncestorIffAllMatch | src/flask_debugtoolbar/utils.py:65-72 | A start directory is an ancestor exactly when all its components match |
| Paths.RelPathKeptIffAncestor | src/flask_debugtoolbar/utils.py:65-72 | A relative path is kept exactly when the root is an ancestor of the value, and it is then the value's remaining components |
| Paths.NonAncestorClimbs | src/flask_debugtoolbar/utils.py:71 | For a non-ancestor root the relative path starts with `..`, so it is dropped |
| Paths.AncestorKept | src/flask_debugtoolbar/utils.py:71-72 | For an ancestor root the relative path is the remaining components and is kept |
| Paths.RelativePaths | src/flask_debugtoolbar/utils.py:60-72 | Every yielded path is the relative path from some root and never starts with `..`, at most one per root, and every root whose relative path is kept contributes it |
| Paths.RelativePathsConcat | src/flask_debugtoolbar/utils.py:60-72 | The roots are visited in order: the paths for a concatenation of root lists are the paths for the first list followed by those for the second |
| Paths.RelativePathsOfOneRoot | src/flask_debugtoolbar/utils.py:63-72 | A single root yields its relative path exactly when relpath succeeds and the result does not start with `..`, and nothing otherwise |
| Paths.RelativePathsOfNestedRoots | test/test_utils.py:24-27 | Nested ancestor roots yield one relative path each, in root order |
| Paths.RelPathOfNonDescendant | test/test_utils.py:16-18 | A root outside the value climbs with `..` and yields nothing |
| Paths.PosixNestedRootsExample | test/test_utils.py:25-50 | `/foo/bar/baz` under `/foo` and `/foo/bar` gives `bar/baz` and `baz`, and the shortest is `baz` |
| Paths.PosixUnrelatedRootExample | test/test_utils.py:17-46 | `/foo/bar` under `/baz` gives nothing, and the shortest falls back to the value |
| Paths.NtIgnoresCaseExample | test/test_utils.py:34 | Under Windows rules a root differing only in case matches, and the suffix keeps the value's case |
| Paths.FirstShortest | src/flask_debugtoolbar/utils.py:57 | `min` by length returns the earliest of the shortest candidates |
| Paths.FirstShortestWithFallback | src/flask_debugtoolbar/utils.py:57 | With the value as the last candidate, the result is never longer than the value, and a relative path of equal length wins over it |
| Paths.ShortestRelativePath | src/flask_debugtoolbar/utils.py:53-57 | The result is the value or one of the relative paths, no longer than any of them or the value, and a relative path when one is no longer than the value |
| Paths.ShortestUnderSingleRoot | test/test_utils.py:42 | Under a single ancestor root the shortest relative path is the remaining components |
| Paths.FormatFname | src/flask_debugtoolbar/utils.py:33-50 | Values starting with `{` or `<` are unchanged; any other result starts with `./` or is wrapped in `<` and `>` |
| Paths.FormatFnameUnderRoot | src/flask_debugtoolbar/utils.py:42-47 | A file under the project root is shown as `./` and its path below the root |
| Paths.FormatFnameOutsideRoot | src/flask_debugtoolbar/utils.py:42-50 | A file whose first component differs from the project root's is shown as `<`, its shortest path relative to the `sys.path` entries (or itself), `>` |
| Paths.DecodeText | src/flask_debugtoolbar/utils.py:75-85 | Text is unchanged; bytes keep their length, ASCII bytes map to themselves, every other byte becomes U+FFFD |
| Paths.DecodeAsciiRoundTrip | test/test_utils.py:63-65 | Decoding the ASCII encoding of a text gives the text back |
| Paths.DecodeTextNonAsciiExample | test/test_utils.py:68-76 | `abc \xff xyz` decodes to `abc`, U+FFFD and `xyz` |
| Profiler.Shortcut | flaskext/debugtoolbar/panels/profiler.py:117-127 | Relative values starting with `{`, `<` or `./` are kept, other relative ones get `./`, values under the project root become `.` and the remainder |
| Profiler.CommonPrefixLen | flaskext/debugtoolbar/panels/profiler.py:135 | `commonprefix` of two strings: both agree up to it and differ just after it |
| Profiler.LongestSharedPrefix | flaskext/debugtoolbar/panels/profiler.py:131-138 | The chosen prefix is a longest common prefix with some sys.path entry, and none when no entry shares a first character |
| Profiler.FormatFnameAsWritten | flaskext/debugtoolbar/panels/profiler.py:114-143 | The shortcuts apply first; with no shared prefix the `.endswith` on None fails; a result always starts with `.`, `{` or `<` |
| Profiler.FormatFnameAsWrittenKeepsLastChar | flaskext/debugtoolbar/panels/profiler.py:140-143 | For a file below a sys.path entry, the written code keeps the entry's last character in front of the relative path |
| Profiler.FormatFname | flaskext/debugtoolbar/panels/profiler.py:114-143 | Corrected: the cut falls just after a separator, so the angle-bracketed rest is a path relative to a directory |
| Profiler.FormatFnameRelativeToEntry | flaskext/debugtoolbar/panels/profiler.py:129-143 | For a file below a sys.path entry, the corrected function shows exactly the path below that entry |
| Profiler.PythonLibAsWritten | flaskext/debugtoolbar/panels/profiler.py:140-143 | `/usr/lib/python2.6/os.py` under sys.path entry `/usr/lib/python2.6` is shown as `<6/os.py>` |
| Profiler.PythonLibCorrected | flaskext/debugtoolbar/panels/profiler.py:140-143 | The corrected function shows the same file as `<os.py>` |
| Profiler.Ncalls | flaskext/debugtoolbar/panels/profiler.py:52-55 | The call count is the total alone when it equals the primitive count, and contains `/` exactly when they differ |
| Profiler.NcallsReadsBack | flaskext/debugtoolbar/panels/profiler.py:52-53 | `total/primitive` splits back into the two decimal counts |
| Profiler.ProcessView | flaskext/debugtoolbar/panels/profiler.py:33-35 | An inactive panel returns None; an active one returns the view wrapped by the profiler |
| Profiler.ProcessRequest | flaskext/debugtoolbar/panels/profiler.py:26-31 | An inactive panel changes nothing; an active one starts a profiler with no stats |
| Profiler.ProcessResponse | flaskext/debugtoolbar/panels/profiler.py:39-85 | An inactive panel returns False and changes nothing; an active one with a profiler collects stats |
| Profiler.InactiveRequestUntouched | flaskext/debugtoolbar/panels/profiler.py:26-41 | An inactive panel goes through a whole request without a change and never wraps the view |
| TemplatePanel.BoundedAppend | src/flask_debugtoolbar/panels/template.py:29 | A deque of at most 5 grows by one until full, then drops its oldest entry |
| TemplatePanel.InitialState | src/flask_debugtoolbar/panels/template.py:29 | The class-level cache starts empty |
| TemplatePanel.NewPanel | src/flask_debugtoolbar/panels/template.py:39-43 | A new panel has a fresh key and an empty templates list; the cache and other panels are untouched |
| TemplatePanel.StoreTemplateInfo | src/flask_debugtoolbar/panels/template.py:45-51 | Every render appends its info; the key enters the cache only on the first render and only with the editor enabled |
| TemplatePanel.StoreKeepsValid | src/flask_debugtoolbar/panels/template.py:45-51 | Recording keeps the cache within 5 distinct keys, each naming a non-empty templates list |
| TemplatePanel.NewPanelKeepsValid | src/flask_debugtoolbar/panels/template.py:39-43 | Creating a panel keeps that invariant |
| TemplatePanel.GetCacheForKey | src/flask_debugtoolbar/panels/template.py:31-37 | A cached key gives that panel's templates list; any other key raises KeyError |
| TemplatePanel.LaterRendersVisible | src/flask_debugtoolbar/panels/template.py:49-51 | The cache holds the list itself, so renders recorded after caching are visible through it |
| TemplatePanel.FirstRenderCaches | src/flask_debugtoolbar/panels/template.py:48-49 | With the editor enabled, the first render makes the key retrievable |
| TemplatePanel.DisabledNeverCaches | src/flask_debugtoolbar/panels/template.py:48 | With the editor disabled the cache never changes |
| TemplatePanel.FullCacheEvictsOldest | src/flask_debugtoolbar/panels/template.py:29-49 | Caching into a full deque evicts the oldest key, which then raises KeyError |
| TemplatePanel.NavSubtitle | src/flask_debugtoolbar/panels/template.py:56-57 | The subtitle is the count followed by ` rendered` |
| TemplatePanel.RequireEnabled | src/flask_debugtoolbar/panels/template.py:80-82 | A disabled editor aborts 403 and an enabled one passes |
| TemplatePanel.EditorRenders | src/flask_debugtoolbar/panels/template.py:99-104 | The editor view aborts 403 first, then raises KeyError for an uncached key, else lists the panel's renders |
| TemplatePanel.FirstRender | src/flask_debugtoolbar/panels/template.py:117-132 | The save and preview views abort 403 first, then raise KeyError, else use the first render |
| TemplatePanel.GetSource | src/flask_debugtoolbar/panels/template.py:85-87 | A template without a filename has empty source |
| TemplatePanel.RecordAll | src/flask_debugtoolbar/panels/template.py:45-51 | A sequence of renders changes only the rendering panel's list and keeps the cache bounded |
| TemplatePanel.RecordAllInOrder | src/flask_debugtoolbar/panels/template.py:51 | Renders are appended in arrival order |
| TemplatePanel.LegacyStore | flask_debugtoolbar/panels/template.py:18-19 | Each render signal appends its info at the end |
| TemplatePanel.LegacyRecordsInOrder | flask_debugtoolbar/panels/template.py:15-19 | Starting from the list, renders are appended in arrival order |
| TemplatePanel.LegacySubtitleCounts | flask_debugtoolbar/panels/template.py:15-31 | The subtitle counts every render since the panel was created |
| LogCapture.GetRecords | src/flask_debugtoolbar/panels/logger.py:22-35 | A thread's list is returned, created empty if missing; no other entry changes |
| LogCapture.Emit | src/flask_debugtoolbar/panels/logger.py:19-20 | A record is appended to the current thread's list only |
| LogCapture.EmitIsolatesThreads | flaskext/debugtoolbar/panels/logger.py:13-14 | A record emitted on one thread is invisible to another |
| LogCapture.EmitAllAppends | src/flask_debugtoolbar/panels/logger.py:19-20 | A thread's records accumulate in emission order |
| LogCapture.ClearRecords | src/flask_debugtoolbar/panels/logger.py:37-42 | Only the thread's entry is removed, and an absent one is a no-op |
| LogCapture.InitOnce | src/flask_debugtoolbar/panels/logger.py:49-68 | The first call installs an empty handler; later calls change nothing |
| LogCapture.InitOnceIdempotent | flask_debugtoolbar/panels/logbook.py:48-57 | Initialising twice is initialising once, and the handler is installed once |
| LogCapture.ProcessRequest | src/flask_debugtoolbar/panels/logger.py:75-77 | A request starts with no records for its thread; other threads keep theirs |
| LogCapture.RequestsInstallOnce | src/flask_debugtoolbar/panels/logger.py:45-77 | After any non-empty run of requests on any threads the handler exists and was added to the root logger once in total |
| LogCapture.GetAndDelete | src/flask_debugtoolbar/panels/logger.py:79-82 | The thread's records are returned and its entry removed; without a handler, AttributeError |
| LogCapture.RequestSeesItsRecords | flask_debugtoolbar/panels/logbook.py:64-71 | A request's panel returns exactly the records emitted since its `process_request` |
| LogCapture.NavSubtitle | src/flask_debugtoolbar/panels/logger.py:87-90 | `1 message` for one record, `N messages` otherwise; reading creates the thread's list |
| LogCapture.PyAnd | flask_debugtoolbar/panels/logbook.py:80 | Python's `and` returns one of its operands and is truthy exactly when both are |
| LogCapture.PyOr | flask_debugtoolbar/panels/logbook.py:80 | Python's `or` returns one of its operands and is truthy exactly when either is |
| LogCapture.LogbookNavSubtitleAsWritten | flask_debugtoolbar/panels/logbook.py:76-80 | As written, the subtitle always ends in ` messages` |
| LogCapture.LogbookOneMessageAsWritten | flask_debugtoolbar/panels/logbook.py:78-80 | One record reads `1 messages`, unlike the intended subtitle |
| LogCapture.LogbookNavSubtitle | flask_debugtoolbar/panels/logbook.py:76-80 | Corrected: `1 message` for one record, otherwise as written |
| Mail.Initial | flask_debugtoolbar/panels/mail.py:6-7 | The store starts empty at index 0 |
| Mail.AddMail | flask_debugtoolbar/panels/mail.py:9-12 | The message is stored at the unused current index, which then advances by one |
| Mail.RemoveMail | flask_debugtoolbar/panels/mail.py:20-24 | Only the given key is removed, and an absent key raises KeyError; the index is kept |
| Mail.RemoveAllMails | flask_debugtoolbar/panels/mail.py:26-30 | The store is emptied and the index is not reset |
| Mail.Step | flask_debugtoolbar/panels/mail.py:9-30 | Every store operation keeps all keys below the index and never lowers it |
| Mail.RunNeverRewinds | flask_debugtoolbar/panels/mail.py:9-30 | Over any sequence of operations the index never decreases |
| Mail.IndexNeverReused | flask_debugtoolbar/panels/mail.py:9-30 | After a mail is added, no later mail reuses its index, whatever was removed in between |
| Mail.NavSubtitle | flask_debugtoolbar/panels/mail.py:57-61 | `1 Mail` for one mail, `N Mails` otherwise, including 0 |
| Mail.EmptiedStoreSubtitle | flask_debugtoolbar/panels/mail.py:26-61 | After removing all mails the subtitle is `0 Mails` |
| Routes.ProcessRequest | src/flask_debugtoolbar/panels/route_list.py:31-36 | No listed rule starts with `/_debug_toolbar`, each listed rule is an app rule, and every other rule is listed |
| Routes.ProcessRequestKeepsOrder | src/flask_debugtoolbar/panels/route_list.py:32-36 | Filtering distributes over concatenation, so url_map order is kept |
| Routes.ProcessRequestKeepsAppRules | src/flask_debugtoolbar/panels/route_list.py:32-36 | A map without toolbar rules is listed unchanged |
| Routes.NavSubtitle | src/flask_debugtoolbar/panels/route_list.py:26-29 | `1 route` for one rule, `N routes` otherwise |
| Routes.DefaultSubtitle | src/flask_debugtoolbar/panels/route_list.py:15 | Before `process_request` the class-level empty list gives `0 routes` |
| Headers.ProcessRequest | src/flask_debugtoolbar/panels/headers.py:16-51 | The captured pairs are the filter names present in the environ, in filter order, each with its environ value |
| Headers.ProcessRequestIdempotent | src/flask_debugtoolbar/panels/headers.py:49-51 | Capturing again from the dict of captured headers gives the same pairs |
| Headers.OtherEntriesIgnored | src/flask_debugtoolbar/panels/headers.py:49-51 | Environ entries outside the filter never affect what is captured |
| ViewPanels.ResetView | src/flask_debugtoolbar/panels/request_vars.py:27-31 | A request starts with no view, no positional and no keyword arguments |
| ViewPanels.RecordView | src/flask_debugtoolbar/panels/request_vars.py:33-40 | The view and keyword arguments are recorded and None is returned |
| ViewPanels.RecordingKeepsView | src/flask_debugtoolbar/panels/request_vars.py:33-40 | Through the toolbar's fold, recording panels keep the view, and every one ends up holding it |
| ViewPanels.ViewLabel | src/flask_debugtoolbar/panels/request_vars.py:49-53 | `[unknown]` exactly when no view was recorded, else a dotted label |
| ViewPanels.ViewLabelSplits | src/flask_debugtoolbar/panels/request_vars.py:50 | The label splits at its last dot into the view's module and name |
| ViewPanels.KwargsShown | src/flask_debugtoolbar/panels/request_vars.py:54 | `view_kwargs or {}` shows the same mapping, an empty one included |
| ViewPanels.SettingsSnapshot | flask_debugtoolbar/panels/settings_vars.py:25-26 | The snapshot holds exactly the config's pairs, sorted by key |
| ViewPanels.SettingsStrictlyAscending | flask_debugtoolbar/panels/settings_vars.py:25-26 | Config keys are distinct, so the snapshot's keys strictly ascend |
| LegacyExtension.Construct | flaskext/debugtoolbar/__init__.py:31-60 | RuntimeError exactly for a debug app without a truthy SECRET_KEY; hooks exactly in debug; every added URL rule is under `/_debug_toolbar/` |
| LegacyExtension.ShowToolbar | flaskext/debugtoolbar/__init__.py:97-101 | False exactly for paths starting with `/_debug_toolbar/` |
| LegacyExtension.OwnRoutesHidden | flaskext/debugtoolbar/__init__.py:58-101 | The toolbar is never shown on its own routes |
| LegacyExtension.SegmentNotName | flaskext/debugtoolbar/__init__.py:99 | The prefix test needs the slash: any path that continues `/_debug_toolbar` with another character, such as `/_debug_toolbarx`, is still shown |
| LegacyExtension.ProcessRequest | flaskext/debugtoolbar/__init__.py:107-113 | A shown request adds its toolbar, with request hooks run, and keeps every other stored toolbar |
| LegacyExtension.StoreOnlyGrows | flaskext/debugtoolbar/__init__.py:111 | The legacy store keeps other requests' toolbars, where the current one starts afresh |
| LegacyExtension.ProcessView | flaskext/debugtoolbar/__init__.py:115-124 | Identity without a toolbar; otherwise the view and the request's updated panels are the in-order fold of the panels' truthy returns, and every other request's stored toolbar is unchanged |
| LegacyExtension.DefaultPanelsKeepView | flaskext/debugtoolbar/__init__.py:115-124 | Panels with the default hook never replace the view |
| LegacyExtension.InterceptRedirect | flaskext/debugtoolbar/__init__.py:133-142 | Only a 301/302/303/304 with a non-empty location becomes a 200 with no location and the rendered redirect page as body |
| LegacyExtension.ProcessResponseAsWritten | flaskext/debugtoolbar/__init__.py:126-132 | As written, any request with a toolbar fails with AttributeError on `.config` |
| LegacyExtension.ShownRequestFailsAsWritten | flaskext/debugtoolbar/__init__.py:107-132 | So every request the toolbar is shown on fails its response |
| LegacyExtension.ProcessResponse | flaskext/debugtoolbar/__init__.py:126-158 | Corrected: only status 200 runs the panel hooks, also for non-sequence bodies; a sequence body gets the toolbar before the last case-insensitive `</body>` |
| LegacyExtension.InjectionKeepsText | flaskext/debugtoolbar/__init__.py:150-157 | The new body keeps the text before the tag, then the toolbar, a lowercase `</body>` and the text after the original tag; with no tag it is unchanged |
| LegacyExtension.ReplaceSplices | flaskext/debugtoolbar/__init__.py:153-157 | Replacing the tag with toolbar-plus-tag splices the toolbar in this way |
| LegacyExtension.InterceptedRedirectDecorated | flaskext/debugtoolbar/__init__.py:132-157 | An intercepted redirect is then treated as a 200 page and decorated |
| LegacyExtension.Resolve | flaskext/debugtoolbar/toolbar.py:30-35 | A panel path yields its class when it imports; otherwise ValueError, ImportError or AttributeError |
| LegacyExtension.Fresh | flaskext/debugtoolbar/toolbar.py:37-39 | A new panel carries its class's name and state and is inactive |
| LegacyExtension.LoadPanels | flaskext/debugtoolbar/toolbar.py:25-40 | All paths' panels in order with no skipping, or the first failing path's error |
| LegacyExtension.DefaultPathsSplit | flaskext/debugtoolbar/toolbar.py:13-32 | Every default panel path splits at its last dot |
| LegacyExtension.NewToolbar | flaskext/debugtoolbar/toolbar.py:4-22 | A toolbar has the static-path context and seven inactive panels, or fails as loading fails |
| LegacyToolbar.ResolveAsWritten | flask_debugtoolbar/toolbar.py:19-29 | As written, a module that does not import raises NameError; a missing class AttributeError; a dotless path ValueError |
| LegacyToolbar.Resolve | flask_debugtoolbar/toolbar.py:19-29 | Corrected: a module that does not import is skipped |
| LegacyToolbar.ResolveDiffersOnlyOnMissingModule | flask_debugtoolbar/toolbar.py:24-28 | The two differ only on a missing module, where the skip becomes NameError |
| LegacyToolbar.LoadPanelsAsWritten | flask_debugtoolbar/toolbar.py:19-30 | As written: every path's class in order, or the first error |
| LegacyToolbar.LoadPanels | flask_debugtoolbar/toolbar.py:19-30 | Corrected: succeeds exactly when no path fails other than by a missing module, yields at most one class per path, else reports the first failure |
| LegacyToolbar.AllModulesImport | flask_debugtoolbar/toolbar.py:24-28 | When every module imports, the two loaders agree |
| LegacyToolbar.MissingModuleExample | flask_debugtoolbar/toolbar.py:24-28 | For `missing.Panel` with no such module, the written loader raises NameError and the corrected one yields nothing |
| LegacyToolbar.AgreesWithCurrentLoader | flask_debugtoolbar/toolbar.py:19-30 | The corrected loader agrees with the current cached `_iter_panels` |
| LegacyToolbar.CreatePanels | flask_debugtoolbar/toolbar.py:32-42 | Panel i is an instance of the i-th loaded class (its name and initial data), active exactly when its DOM id is in the unquoted `;`-split cookie, none without the cookie; the shared context gains the toolbar's keys once a panel exists |
| LegacyToolbar.CookieActivates | flask_debugtoolbar/toolbar.py:36-41 | A cookie storing the encoded `;`-join of ASCII ids yields one instance per loaded class, active exactly when the ids list its DOM id |

## Left out

- Text.Lower: case folding is ASCII only. Python's `str.lower` also folds non-ASCII letters, and can change a string's length. This affects `replace_insensitive`, the `</body>` search and `is_select`.
- Percent.Unquote: each `%XX` triplet becomes one character (Latin-1). Python decodes runs of UTF-8 octets. The round trip is proved for ASCII text only.
- Registry.ImportString: werkzeug's `import_string` first tries the whole dotted path as a module and returns the module object when it imports; the model always looks up the last component as a class in the module before it. A module object in `DEBUG_TB_PANELS` would fail when the toolbar instantiates it.
- Profiler: `nav_subtitle` for an inactive profiler is the constant `in-active`; the active one formats the elapsed time as a float, which is not modelled.
- Mail: `has_content` and `has_resource` are the constant outcome of importing `flask_mail`, which is not modelled.
- SqlPanel.LoadQuery: statements are strings. `is_select` also accepts `bytes`, but the URL-safe serializer's JSON `loads` never yields `bytes`; any other non-text statement fails in `.lower()` with `AttributeError`, the model's `NonTextStatement` case.
- Paths.FormatFname: covers POSIX paths only. `os.path.normpath` is taken as the identity. `sys.path` and the project root are parameters.
- Paths.SplitDrive: follows `ntpath.splitdrive` of Python 3.11 and later. Older versions split some malformed UNC prefixes differently, and the `/` alternative separator of `ntpath` is not modelled: only `\` separates.
- Paths.RelPath: `abspath` is taken as the identity, so the path and the start are read as already absolute and normalised. `format_fname` passes the raw `sys.path` entries, which may be `''` or relative; Python measures those from the working directory, while the model reads an empty or relative start from the root `/`.
- Extension.InterceptRedirect: the redirect page's content length is its length in characters. The source takes `len` of the rendered `str`, which also counts characters.
- Extension.InitApp: panel loading at start-up is the cache fill by `_iter_panels`. Each panel class's `init_app` body is not modelled.
- Extension.ShowToolbar: `DEBUG_TB_HOSTS` is a sequence of addresses.
- SqlPanel.DumpQuery: params are a sequence; falsiness is emptiness. A serialisation TypeError is the signer's dumps returning None.
- SqlPanel.LegacyNavSubtitle: when the intermediate `get_debug_queries` is itself falsy, the subtitle is None. That case is not modelled.
- TemplatePanel.NewPanel: requires a key not used before. This is the uniqueness of `uuid4` keys.
- TemplatePanel.GetCacheForKey: requires the cache invariant `Valid`, which every modelled operation keeps.
- Mail.AddMail: requires `Valid` (every stored key is below the index), which holds from the initial store onwards.
- LegacyToolbar.LoadPanels: which classes are yielded is stated through `AgreesWithCurrentLoader`, not in the function's own ensures.
- LegacyExtension.ProcessResponse: the body is modelled as decoded text; the response charset is not modelled.
- The legacy store in `flaskext/debugtoolbar/__init__.py` never deletes entries. That is unbounded memory growth, not a wrong result, so it is not listed as a finding.
- The panel base classes of the two older packages (`flaskext/debugtoolbar/panels/__init__.py`, `flask_debugtoolbar/panels/__init__.py`) are not part of this model. Their instantiation is taken to be like the current `DebugPanel`'s.
- I/O: reading and writing template files in the editor, `send_from_directory`, logging output and warnings. A warning is a flag in the outcome.
- Concurrency: `ContextVar`, thread identity and the `_init_lock` double check. Threads are opaque keys, and `_init_once` is a single-threaded initialisation.
- Gzip, the UTF-8 codec, the itsdangerous signer and Jinja rendering: abstract function parameters. Decoding and gunzipping may fail; encoding and compressing are taken to succeed. The round trips assume inverse pairs.
- The timer panel, the cProfile statistics of the current profiler, the memory panel, the version panels and the git panel. These are floating point, OS statistics or subprocesses.
- `config_vars.py`, `g.py` and `flaskext/debugtoolbar/views.py`: thin render wrappers with no logic of their own.
- `dispatch_request`, apart from the `process_view` fold it calls.
- `template_preview`'s exception handling and `save_template`'s write.
- `sql_select`'s query execution and `format_sql`: they depend on a database engine and a highlighter.
- The remaining JavaScript (panel showing, tablesorter, key bindings, AJAX calls): only the cookie logic is modelled.

## Findings

| source | as written | input that shows it | evidently intended | confidence | as-written member | corrected member |
|---|---|---|---|---|---|---|
| flask_debugtoolbar/toolbar.py:24-28 | the `except ImportError` branch logs through `app.logger`, but `app` is not defined in `_load_panels` | a `DEBUG_TB_PANELS` entry `missing.Panel` whose module does not import | log the failure and skip the panel | not executed | LegacyToolbar.MissingModuleExample | LegacyToolbar.LoadPanels |
| flask_debugtoolbar/panels/logbook.py:77-80 | `(n == 1) and '' or 's'` is `'s'` also when n is 1, because `''` is falsy | one log record | `1 message` | not executed | LogCapture.LogbookOneMessageAsWritten | LogCapture.LogbookNavSubtitle |
| flaskext/debugtoolbar/__init__.py:132 | reads `.config` on a `DebugToolbar`, which has no such attribute | any request shown with the toolbar | read the app's `DEBUG_TB_INTERCEPT_REDIRECTS` setting | not executed | LegacyExtension.ShownRequestFailsAsWritten | LegacyExtension.ProcessResponse |
| flaskext/debugtoolbar/panels/profiler.py:140-142 | when the common prefix does not end in a separator, it is shortened by one character, keeping the entry's last character | `/usr/lib/python2.6/os.py` with sys.path entry `/usr/lib/python2.6` gives `<6/os.py>` | `<os.py>`, the path relative to the entry | not executed | Profiler.PythonLibAsWritten | Profiler.FormatFname |
