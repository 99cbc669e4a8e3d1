/** The browser side of panel activation (src/flask_debugtoolbar/static/js/toolbar.js):
    the `fldt_active` list the panel switches edit, and the `fldt` flag that
    remembers a hidden toolbar. A cookie jar maps a cookie name to its stored
    (percent-encoded) value; jQuery's `$.cookie` writes with
    `encodeURIComponent` and reads with `decodeURIComponent`. */
module Cookies {
  import opened Text
  import opened Results
  import opened Percent
  import opened Seqs
  import Registry

  const CookieName: string := "fldt"
  const CookieNameActive: string := "fldt_active"

  type Jar = map<string, string>

  /** `$.cookie(name)`: `null` when the cookie is absent, otherwise its value
      through `decodeURIComponent`, which throws `URIError` on a malformed
      escape. */
  function Read(jar: Jar, name: string): (r: Result<Option<string>>)
    ensures r == Ok(None) <==> name !in jar
    ensures r.Err? ==> r.error == URIError && name in jar && '%' in jar[name]
    ensures name in jar && '%' !in jar[name] ==> r == Ok(Some(jar[name]))
  {
    if name !in jar then Ok(None)
    else
      match DecodeUriComponent(jar[name])
      case Ok(v) => Ok(Some(v))
      case Err(e) => Err(e)
  }

  /** `$.cookie(name, value, ...)`: the value is stored percent-encoded, and
      reads back unchanged whatever characters it holds. */
  function Write(jar: Jar, name: string, value: string): (r: Jar)
    ensures r.Keys == jar.Keys + {name}
    ensures forall n :: n in jar && n != name ==> r[n] == jar[n]
    ensures Read(r, name) == Ok(Some(value))
  {
    DecodeEncodeRoundTrip(value);
    jar[name := EncodeUriComponent(value)]
  }

  /** `$.cookie(name, null, {expires: -1})`: the cookie is deleted. */
  function Delete(jar: Jar, name: string): (r: Jar)
    ensures name !in r && r.Keys == jar.Keys - {name}
    ensures forall n :: n in r ==> r[n] == jar[n]
  {
    jar - {name}
  }

  /** `(active_str) ? active_str.split(';') : []`. */
  function ActiveList(cookie: Option<string>): (r: seq<string>)
    ensures cookie == None || cookie == Some("") ==> r == []
    ensures forall i :: 0 <= i < |r| ==> ';' !in r[i]
    ensures cookie.Some? && cookie.value != "" ==> Join(r, ';') == cookie.value
  {
    if cookie.Some? && cookie.value != "" then
      JoinSplit(cookie.value, ';');
      Split(cookie.value, ';')
    else []
  }

  /** The filter `$.grep(active, n != dom_id)` keeps. */
  function NotId(domId: string): string -> bool {
    x => x != domId
  }

  /** The switch handler's list edit: every occurrence of `dom_id` is removed,
      then it is appended once when the panel is being switched on. */
  function Toggle(active: seq<string>, domId: string, turnOn: bool): (r: seq<string>)
    ensures !turnOn ==> domId !in r
    ensures turnOn ==> |r| > 0 && r[|r| - 1] == domId && domId !in r[..|r| - 1]
    ensures turnOn ==> multiset(r)[domId] == 1
    ensures forall x :: x in r && x != domId ==> x in active
    ensures forall x :: x in active && x != domId ==> x in r
  {
    var kept := Filter(active, NotId(domId));
    if turnOn then
      assert (kept + [domId])[..|kept|] == kept;
      assert multiset(kept)[domId] == 0;
      kept + [domId]
    else kept
  }

  /** Switching a panel on or off leaves the other ids in their relative order. */
  lemma ToggleKeepsOthersInOrder(active: seq<string>, domId: string, turnOn: bool)
    ensures Filter(Toggle(active, domId, turnOn), NotId(domId)) == Filter(active, NotId(domId))
  {
    var kept := Filter(active, NotId(domId));
    FilterAllKept(kept, NotId(domId));
    if turnOn {
      FilterConcat(kept, [domId], NotId(domId));
      assert Filter([domId], NotId(domId)) == [] + Filter([domId][1..], NotId(domId));
      assert [domId][1..] == [];
    }
  }

  /** The cookie update after a switch click: an empty list deletes
      `fldt_active`, any other list is stored as its `;`-join. */
  function StoreActive(jar: Jar, active: seq<string>): (r: Jar)
    ensures |active| == 0 ==> CookieNameActive !in r
    ensures |active| > 0 ==> CookieNameActive in r && r[CookieNameActive] == EncodeUriComponent(Join(active, ';'))
    ensures forall n :: n != CookieNameActive ==> (n in r <==> n in jar) && (n in r ==> r[n] == jar[n])
  {
    if |active| > 0 then Write(jar, CookieNameActive, Join(active, ';'))
    else Delete(jar, CookieNameActive)
  }

  /** A click on the switch of the panel with id `domId`, whose switch
      currently shows `wasActive`; when the stored list does not decode,
      `$.cookie` throws before anything is written. */
  function ClickSwitch(jar: Jar, domId: string, wasActive: bool): (r: Jar)
    ensures Read(jar, CookieNameActive).Err? ==> r == jar
    ensures forall n :: n != CookieNameActive ==> (n in r <==> n in jar) && (n in r ==> r[n] == jar[n])
  {
    match Read(jar, CookieNameActive)
    case Err(_) => jar
    case Ok(cookie) => StoreActive(jar, Toggle(ActiveList(cookie), domId, !wasActive))
  }

  predicate AsciiParts(parts: seq<string>) {
    forall i :: 0 <= i < |parts| ==> IsAscii(parts[i])
  }

  lemma {:induction false} SplitAscii(s: string, d: char)
    requires IsAscii(s)
    ensures AsciiParts(Split(s, d))
    decreases |s|
  {
    if d in s {
      var i := IndexOf(s, d);
      SplitAscii(s[i + 1..], d);
    }
  }

  /** Toggling keeps every id ASCII and free of `;` when they were before. */
  lemma ToggleWellFormed(before: seq<string>, domId: string, turnOn: bool)
    requires IsAscii(domId) && ';' !in domId
    requires forall i :: 0 <= i < |before| ==> IsAscii(before[i]) && ';' !in before[i]
    ensures var active := Toggle(before, domId, turnOn);
            forall i :: 0 <= i < |active| ==> IsAscii(active[i]) && ';' !in active[i]
  {
    var active := Toggle(before, domId, turnOn);
    forall i | 0 <= i < |active| ensures IsAscii(active[i]) && ';' !in active[i] {
      if active[i] != domId {
        assert active[i] in before;
      }
    }
  }

  /** The stored list decodes, to ASCII text when it is present. */
  predicate ReadsAsAscii(jar: Jar) {
    Read(jar, CookieNameActive).Ok? &&
    (Read(jar, CookieNameActive).value.Some? ==> IsAscii(Read(jar, CookieNameActive).value.value))
  }

  /** The list the client reads is made of ASCII, `;`-free ids when the stored value decodes to ASCII. */
  lemma ActiveListWellFormed(jar: Jar)
    requires ReadsAsAscii(jar)
    ensures var before := ActiveList(Read(jar, CookieNameActive).value);
            forall i :: 0 <= i < |before| ==> IsAscii(before[i]) && ';' !in before[i]
  {
    var cookie := Read(jar, CookieNameActive).value;
    if cookie.Some? && cookie.value != "" {
      SplitAscii(cookie.value, ';');
    }
  }

  /** After a click the server's `unquote(...).split(";")` activates the
      clicked panel exactly when the click switched it on, provided the ids
      are ASCII and the stored list decodes to ASCII. */
  lemma ServerSeesClick(jar: Jar, domId: string, wasActive: bool)
    requires IsAscii(domId) && domId != "" && ';' !in domId
    requires ReadsAsAscii(jar)
    ensures var r := ClickSwitch(jar, domId, wasActive);
            var cookie := if CookieNameActive in r then Some(r[CookieNameActive]) else None;
            domId in Registry.Activation(cookie) <==> !wasActive
  {
    var before := ActiveList(Read(jar, CookieNameActive).value);
    ActiveListWellFormed(jar);
    var active := Toggle(before, domId, !wasActive);
    ToggleWellFormed(before, domId, !wasActive);
    var r := StoreActive(jar, active);
    assert r == ClickSwitch(jar, domId, wasActive);
    if |active| > 0 {
      Registry.CookieRoundTripActivates(active);
      assert Registry.Activation(Some(r[CookieNameActive])) == active;
    } else {
      assert CookieNameActive !in r;
    }
  }

  /** The client reads back the list it stored, when no id is empty or holds `;`. */
  lemma ClientReadsBackList(jar: Jar, active: seq<string>)
    requires |active| > 0
    requires forall i :: 0 <= i < |active| ==> active[i] != "" && ';' !in active[i]
    ensures var cookie := Read(StoreActive(jar, active), CookieNameActive);
            cookie.Ok? && ActiveList(cookie.value) == active
  {
    assert |Join(active, ';')| > 0 by { JoinNonEmpty(active, ';'); }
    SplitJoin(active, ';');
  }

  lemma {:induction false} JoinNonEmpty(parts: seq<string>, d: char)
    requires |parts| > 0 && parts[0] != ""
    ensures |Join(parts, d)| >= |parts[0]|
  {
  }

  /** `hide_toolbar(setCookie)`: only a user-initiated hide remembers itself. */
  function HideToolbar(jar: Jar, setCookie: bool): (r: Jar)
    ensures setCookie ==> Read(r, CookieName) == Ok(Some("hide"))
    ensures !setCookie ==> r == jar
  {
    if setCookie then Write(jar, CookieName, "hide") else jar
  }

  /** `show_toolbar`: the hide flag is deleted. */
  function ShowToolbar(jar: Jar): (r: Jar)
    ensures Read(r, CookieName) == Ok(None)
  {
    Delete(jar, CookieName)
  }

  /** How `init` leaves the toolbar. */
  datatype InitOutcome = Hidden | Shown | Aborted

  /** `init`'s test of the `fldt` flag: a non-empty value hides the toolbar
      and keeps the flag, an absent or empty one shows it and deletes the
      flag, and a value that does not decode throws out of `init`. */
  function Init(jar: Jar): (r: (InitOutcome, Jar))
    ensures r.0 == Aborted <==> Read(jar, CookieName).Err?
    ensures r.0 == Hidden <==> Read(jar, CookieName).Ok? && Read(jar, CookieName).value.Some? &&
                               Read(jar, CookieName).value.value != ""
    ensures r.0 == Shown ==> r.1 == jar - {CookieName}
    ensures r.0 != Shown ==> r.1 == jar
  {
    match Read(jar, CookieName)
    case Err(_) => (Aborted, jar)
    case Ok(flag) => if flag.Some? && flag.value != "" then (Hidden, jar) else (Shown, ShowToolbar(jar))
  }

  /** Hiding by hand and reloading starts hidden; showing and reloading
      starts shown, and a page that starts shown starts shown again. */
  lemma HideShowRoundTrip(jar: Jar)
    ensures Init(HideToolbar(jar, true)).0 == Hidden
    ensures Init(ShowToolbar(jar)).0 == Shown
    ensures Init(jar).0 == Shown ==> Init(Init(jar).1) == Init(jar)
  {
    var cleared := jar - {CookieName};
    assert cleared - {CookieName} == cleared;
  }
}
