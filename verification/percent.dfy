/** Percent-encoding (section 2.1 of RFC 3986) as the two ends of the
    `fldt_active` cookie use it: the browser writes with JavaScript's
    `encodeURIComponent` and reads back with `decodeURIComponent` (the Encode
    and Decode operations of ECMA-262, section 19.2.6, URI Handling
    Functions); the server reads with Python's `urllib.parse.unquote`. */
module Percent {
  import opened Text
  import opened Results

  predicate IsHexDigit(c: char) {
    ('0' <= c <= '9') || ('a' <= c <= 'f') || ('A' <= c <= 'F')
  }

  function HexValue(c: char): (v: nat)
    requires IsHexDigit(c)
    ensures v < 16
  {
    if '0' <= c <= '9' then c as int - '0' as int
    else if 'a' <= c <= 'f' then c as int - 'a' as int + 10
    else c as int - 'A' as int + 10
  }

  /** The upper-case hex digit `encodeURIComponent` writes. */
  function HexDigit(v: nat): (c: char)
    requires v < 16
    ensures IsHexDigit(c) && HexValue(c) == v
  {
    "0123456789ABCDEF"[v]
  }

  /** `unquote`: each `%XX` triplet becomes the character with code XX; any
      other character, including a `%` not followed by two hex digits, is kept. */
  function Unquote(s: string): (r: string)
    ensures |r| <= |s|
    ensures '%' !in s ==> r == s
    decreases |s|
  {
    if |s| == 0 then ""
    else if s[0] == '%' && |s| >= 3 && IsHexDigit(s[1]) && IsHexDigit(s[2]) then
      [(HexValue(s[1]) * 16 + HexValue(s[2])) as char] + Unquote(s[3..])
    else
      [s[0]] + Unquote(s[1..])
  }

  /** The characters `encodeURIComponent` leaves as they are. */
  predicate Unreserved(c: char) {
    ('A' <= c <= 'Z') || ('a' <= c <= 'z') || ('0' <= c <= '9')
    || c == '-' || c == '_' || c == '.' || c == '!' || c == '~'
    || c == '*' || c == '\'' || c == '(' || c == ')'
  }

  function Triplet(b: nat): (r: string)
    requires b < 256
    ensures |r| == 3 && r[0] == '%'
  {
    ['%', HexDigit(b / 16), HexDigit(b % 16)]
  }

  /** The UTF-8 octets of one code point. */
  function Utf8(c: char): (r: seq<nat>)
    ensures 1 <= |r| <= 4
    ensures forall i :: 0 <= i < |r| ==> r[i] < 256
    ensures (c as int) < 0x80 ==> r == [c as int]
  {
    var n := c as int;
    if n < 0x80 then [n]
    else if n < 0x800 then [0xC0 + n / 64, 0x80 + n % 64]
    else if n < 0x10000 then [0xE0 + n / 4096, 0x80 + (n / 64) % 64, 0x80 + n % 64]
    else [0xF0 + n / 262144, 0x80 + (n / 4096) % 64, 0x80 + (n / 64) % 64, 0x80 + n % 64]
  }

  function EncodeOctets(bs: seq<nat>): string
    requires forall i :: 0 <= i < |bs| ==> bs[i] < 256
  {
    if |bs| == 0 then "" else Triplet(bs[0]) + EncodeOctets(bs[1..])
  }

  /** `encodeURIComponent`: unreserved characters kept, every other character
      written as the `%XX` triplets of its UTF-8 octets. */
  function EncodeUriComponent(s: string): (r: string)
    ensures '%' !in s && (forall i :: 0 <= i < |s| ==> Unreserved(s[i])) ==> r == s
    decreases |s|
  {
    if |s| == 0 then ""
    else (if Unreserved(s[0]) then [s[0]] else EncodeOctets(Utf8(s[0]))) + EncodeUriComponent(s[1..])
  }

  /** The octet written as `%XX` at position `i`, if one is written there. */
  function OctetAt(s: string, i: nat): (r: Option<nat>)
    ensures r.Some? ==> i + 3 <= |s| && s[i] == '%' && r.value < 256
  {
    if i + 3 <= |s| && s[i] == '%' && IsHexDigit(s[i + 1]) && IsHexDigit(s[i + 2])
    then Some(HexValue(s[i + 1]) * 16 + HexValue(s[i + 2]))
    else None
  }

  /** The length of the UTF-8 sequence an octet leads, read from its leading
      1 bits: 0 for an ASCII octet, 1 for a continuation octet and 5 for an
      octet that leads no sequence. */
  function LeadingOnes(b: nat): (n: nat)
    ensures n <= 5
  {
    if b < 0x80 then 0 else if b < 0xC0 then 1 else if b < 0xE0 then 2
    else if b < 0xF0 then 3 else if b < 0xF8 then 4 else 5
  }

  predicate IsContinuation(b: Option<nat>) {
    b.Some? && 0x80 <= b.value < 0xC0
  }

  /** A Unicode scalar value: a code point that is not a surrogate. */
  predicate IsScalar(v: int) {
    (0 <= v < 0xD800) || (0xE000 <= v < 0x110000)
  }

  /** The least code point an `n`-octet sequence may encode; anything below
      it is an over-long form. */
  function MinCodePoint(n: nat): nat {
    if n == 2 then 0x80 else if n == 3 then 0x800 else 0x10000
  }

  /** The payload bits of a lead octet `b` and continuation octets `c1`..`c3`
      of an `n`-octet sequence, put together. */
  function CodePoint(n: nat, b: nat, c1: nat, c2: nat, c3: nat): int {
    if n == 2 then (b - 0xC0) * 64 + (c1 - 0x80)
    else if n == 3 then (b - 0xE0) * 4096 + (c1 - 0x80) * 64 + (c2 - 0x80)
    else (b - 0xF0) * 262144 + (c1 - 0x80) * 4096 + (c2 - 0x80) * 64 + (c3 - 0x80)
  }

  /** One escape of `decodeURIComponent`, at the start of `s`: the character
      it decodes to and how many characters it spans.  A `%` without two hex
      digits, a continuation octet or an octet leading no sequence, a missing
      continuation, and an over-long, surrogate or out-of-range code point
      all throw `URIError`. */
  function DecodeEscape(s: string): (r: Result<(char, nat)>)
    ensures r.Ok? ==> 3 <= r.value.1 <= |s| && r.value.1 % 3 == 0
    ensures r.Err? ==> r.error == URIError
    ensures OctetAt(s, 0).None? ==> r.Err?
    ensures r.Ok? && (r.value.0 as int) < 0x80 ==> r.value.1 == 3 && OctetAt(s, 0) == Some(r.value.0 as int)
  {
    match OctetAt(s, 0)
    case None => Err(URIError)
    case Some(b) =>
      var n := LeadingOnes(b);
      if n == 0 then Ok((b as char, 3))
      else if n == 1 || n == 5 then Err(URIError)
      else
        var c1 := OctetAt(s, 3);
        var c2 := if n >= 3 then OctetAt(s, 6) else Some(0x80);
        var c3 := if n == 4 then OctetAt(s, 9) else Some(0x80);
        if !(IsContinuation(c1) && IsContinuation(c2) && IsContinuation(c3)) then Err(URIError)
        else
          var v := CodePoint(n, b, c1.value, c2.value, c3.value);
          if IsScalar(v) && v >= MinCodePoint(n) then Ok((v as char, 3 * n)) else Err(URIError)
  }

  /** `decodeURIComponent`: characters other than `%` are kept, each escape
      is decoded as `DecodeEscape` reads it, and the first malformed escape
      throws `URIError` for the whole string. */
  function DecodeUriComponent(s: string): (r: Result<string>)
    ensures '%' !in s ==> r == Ok(s)
    ensures r.Err? ==> r.error == URIError && '%' in s
    ensures r.Ok? ==> |r.value| <= |s|
    decreases |s|
  {
    if |s| == 0 then Ok("")
    else if s[0] != '%' then
      assert s == [s[0]] + s[1..];
      match DecodeUriComponent(s[1..])
      case Ok(t) => Ok([s[0]] + t)
      case Err(e) => Err(e)
    else
      match DecodeEscape(s)
      case Err(e) => Err(e)
      case Ok((c, used)) =>
        match DecodeUriComponent(s[used..])
        case Ok(t) => Ok([c] + t)
        case Err(e) => Err(e)
  }

  predicate IsAscii(s: string) {
    forall i :: 0 <= i < |s| ==> (s[i] as int) < 0x80
  }

  lemma TripletDecodes(b: nat, rest: string)
    requires b < 0x80
    ensures Unquote(Triplet(b) + rest) == [b as char] + Unquote(rest)
  {
    var t := Triplet(b) + rest;
    assert t[0] == '%' && t[1] == HexDigit(b / 16) && t[2] == HexDigit(b % 16);
    assert t[3..] == rest;
  }

  lemma UnquoteKeeps(c: char, rest: string)
    requires c != '%'
    ensures Unquote([c] + rest) == [c] + Unquote(rest)
  {
    assert ([c] + rest)[1..] == rest;
  }

  lemma EncodeAsciiChar(c: char)
    requires (c as int) < 0x80
    ensures !Unreserved(c) ==> EncodeOctets(Utf8(c)) == Triplet(c as int)
  {
    if !Unreserved(c) {
      assert Utf8(c) == [c as int];
      assert EncodeOctets([c as int]) == Triplet(c as int) + EncodeOctets([]);
    }
  }

  /** One step of the round trip: the first character comes back first. */
  lemma UnquoteEncodeFirst(s: string)
    requires |s| > 0 && (s[0] as int) < 0x80
    ensures Unquote(EncodeUriComponent(s)) == [s[0]] + Unquote(EncodeUriComponent(s[1..]))
  {
    var rest := EncodeUriComponent(s[1..]);
    if Unreserved(s[0]) {
      assert EncodeUriComponent(s) == [s[0]] + rest;
      UnquoteKeeps(s[0], rest);
    } else {
      EncodeAsciiChar(s[0]);
      assert EncodeUriComponent(s) == Triplet(s[0] as int) + rest;
      TripletDecodes(s[0] as int, rest);
    }
  }

  /** The server's `unquote` undoes the browser's `encodeURIComponent` for ASCII text. */
  lemma {:induction false} UnquoteEncodeRoundTrip(s: string)
    requires IsAscii(s)
    ensures Unquote(EncodeUriComponent(s)) == s
    decreases |s|
  {
    if |s| > 0 {
      UnquoteEncodeFirst(s);
      UnquoteEncodeRoundTrip(s[1..]);
      assert s == [s[0]] + s[1..];
    }
  }

  lemma {:induction false} EncodeOctetsLength(bs: seq<nat>)
    requires forall k :: 0 <= k < |bs| ==> bs[k] < 256
    ensures |EncodeOctets(bs)| == 3 * |bs|
    decreases |bs|
  {
    if |bs| > 0 {
      EncodeOctetsLength(bs[1..]);
    }
  }

  /** Three characters in front move every octet three places on. */
  lemma OctetAtShift(t: string, x: string, j: nat)
    requires |t| == 3
    ensures OctetAt(t + x, j + 3) == OctetAt(x, j)
  {
    var s := t + x;
    if j + 3 <= |x| {
      assert s[j + 3] == x[j] && s[j + 4] == x[j + 1] && s[j + 5] == x[j + 2];
    }
  }

  /** The `i`-th triplet of an encoded octet list reads back as the `i`-th octet. */
  lemma {:induction false} OctetAtEncoded(bs: seq<nat>, rest: string, i: nat)
    requires forall k :: 0 <= k < |bs| ==> bs[k] < 256
    requires i < |bs|
    ensures OctetAt(EncodeOctets(bs) + rest, 3 * i) == Some(bs[i])
    decreases |bs|
  {
    var tail := EncodeOctets(bs[1..]) + rest;
    assert EncodeOctets(bs) + rest == Triplet(bs[0]) + tail;
    if i == 0 {
      var s := Triplet(bs[0]) + tail;
      assert s[0] == '%' && s[1] == HexDigit(bs[0] / 16) && s[2] == HexDigit(bs[0] % 16);
    } else {
      OctetAtEncoded(bs[1..], rest, i - 1);
      OctetAtShift(Triplet(bs[0]), tail, 3 * (i - 1));
    }
  }

  /** The base-64 digits UTF-8 spreads a code point over. */
  lemma Base64Digits(n: nat)
    ensures n == 64 * (n / 64) + n % 64
    ensures n / 64 == 64 * (n / 4096) + (n / 64) % 64
    ensures n / 4096 == 64 * (n / 262144) + (n / 4096) % 64
  {
  }

  /** The escapes `encodeURIComponent` writes for one character decode back
      to that character, spanning three characters per UTF-8 octet. */
  lemma EscapeDecodes(c: char, rest: string)
    ensures var e := EncodeOctets(Utf8(c));
            |e| == 3 * |Utf8(c)| && DecodeEscape(e + rest) == Ok((c, |e|))
  {
    EncodeOctetsLength(Utf8(c));
    var n := c as int;
    if n < 0x80 {
      EscapeDecodesOne(c, rest);
    } else if n < 0x800 {
      EscapeDecodesTwo(c, rest);
    } else if n < 0x10000 {
      EscapeDecodesThree(c, rest);
    } else {
      EscapeDecodesFour(c, rest);
    }
  }

  lemma EscapeDecodesOne(c: char, rest: string)
    requires c as int < 0x80
    ensures DecodeEscape(EncodeOctets(Utf8(c)) + rest) == Ok((c, |EncodeOctets(Utf8(c))|))
  {
    var bs := Utf8(c);
    EncodeOctetsLength(bs);
    OctetAtEncoded(bs, rest, 0);
    assert LeadingOnes(bs[0]) == 0;
  }

  lemma EscapeDecodesTwo(c: char, rest: string)
    requires 0x80 <= c as int < 0x800
    ensures DecodeEscape(EncodeOctets(Utf8(c)) + rest) == Ok((c, |EncodeOctets(Utf8(c))|))
  {
    var bs := Utf8(c);
    var n := c as int;
    EncodeOctetsLength(bs);
    OctetAtEncoded(bs, rest, 0);
    OctetAtEncoded(bs, rest, 1);
    Base64Digits(n);
    assert IsScalar(n);
    assert LeadingOnes(bs[0]) == 2;
    assert CodePoint(2, bs[0], bs[1], 0x80, 0x80) == n;
  }

  lemma EscapeDecodesThree(c: char, rest: string)
    requires 0x800 <= c as int < 0x10000
    ensures DecodeEscape(EncodeOctets(Utf8(c)) + rest) == Ok((c, |EncodeOctets(Utf8(c))|))
  {
    var bs := Utf8(c);
    var n := c as int;
    EncodeOctetsLength(bs);
    OctetAtEncoded(bs, rest, 0);
    OctetAtEncoded(bs, rest, 1);
    OctetAtEncoded(bs, rest, 2);
    Base64Digits(n);
    assert IsScalar(n);
    assert LeadingOnes(bs[0]) == 3;
    assert CodePoint(3, bs[0], bs[1], bs[2], 0x80) == n;
  }

  lemma EscapeDecodesFour(c: char, rest: string)
    requires 0x10000 <= c as int
    ensures DecodeEscape(EncodeOctets(Utf8(c)) + rest) == Ok((c, |EncodeOctets(Utf8(c))|))
  {
    var bs := Utf8(c);
    var n := c as int;
    EncodeOctetsLength(bs);
    OctetAtEncoded(bs, rest, 0);
    OctetAtEncoded(bs, rest, 1);
    OctetAtEncoded(bs, rest, 2);
    OctetAtEncoded(bs, rest, 3);
    Base64Digits(n);
    assert IsScalar(n);
    assert LeadingOnes(bs[0]) == 4;
    assert CodePoint(4, bs[0], bs[1], bs[2], bs[3]) == n;
  }

  /** The browser reads back exactly what it wrote: `decodeURIComponent`
      inverts `encodeURIComponent` on every string. */
  lemma {:induction false} DecodeEncodeRoundTrip(s: string)
    ensures DecodeUriComponent(EncodeUriComponent(s)) == Ok(s)
    decreases |s|
  {
    if |s| > 0 {
      var rest := EncodeUriComponent(s[1..]);
      DecodeEncodeRoundTrip(s[1..]);
      assert s == [s[0]] + s[1..];
      if Unreserved(s[0]) {
        var t := [s[0]] + rest;
        assert EncodeUriComponent(s) == t;
        assert t[1..] == rest;
      } else {
        var e := EncodeOctets(Utf8(s[0]));
        EscapeDecodes(s[0], rest);
        var t := e + rest;
        assert EncodeUriComponent(s) == t;
        assert t[0] == '%';
        assert t[|e|..] == rest;
      }
    }
  }
}
