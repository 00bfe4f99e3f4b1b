/** `encodeURIComponent` (ECMA-262, "encodeURIComponent (uriComponent)") over
    strings of Unicode scalar values: every character outside the unreserved
    set is written as the `%XX` escapes of its UTF-8 bytes (RFC 3629, section 3;
    RFC 3986, sections 2.1 and 2.5), with upper-case hexadecimal digits.
    `decodeURIComponent` is modelled beside it as its inverse. */
module UriEncoding {
  import opened JsStrings

  type Byte = b: int | 0 <= b < 256

  /** The characters `encodeURIComponent` leaves as they are:
      A-Z a-z 0-9 - _ . ! ~ * ' ( ) */
  predicate IsUnreserved(c: char) {
    ('A' <= c <= 'Z') || ('a' <= c <= 'z') || ('0' <= c <= '9') ||
    c == '-' || c == '_' || c == '.' || c == '!' || c == '~' ||
    c == '*' || c == '\'' || c == '(' || c == ')'
  }

  /** The digits an escape is written with. */
  predicate IsHexDigit(c: char) {
    ('0' <= c <= '9') || ('A' <= c <= 'F')
  }

  function HexDigit(d: nat): (c: char)
    requires d < 16
    ensures IsHexDigit(c) && HexValue(c) == d
  {
    if d < 10 then ('0' as int + d) as char else ('A' as int + d - 10) as char
  }

  function HexValue(c: char): (d: nat)
    requires IsHexDigit(c)
    ensures d < 16
  {
    if c <= '9' then c as int - '0' as int else c as int - 'A' as int + 10
  }

  // ---------------------------------------------------------------------------
  // Encoding
  // ---------------------------------------------------------------------------

  /** The UTF-8 bytes of one scalar value. */
  function Utf8(c: char): (bs: seq<Byte>)
    ensures 1 <= |bs| <= 4
  {
    var n := c as int;
    if n < 0x80 then [n]
    else if n < 0x800 then [0xC0 + n / 64, 0x80 + n % 64]
    else if n < 0x10000 then [0xE0 + n / 64 / 64, 0x80 + n / 64 % 64, 0x80 + n % 64]
    else [0xF0 + n / 64 / 64 / 64, 0x80 + n / 64 / 64 % 64, 0x80 + n / 64 % 64, 0x80 + n % 64]
  }

  function PercentByte(b: Byte): string {
    ['%', HexDigit(b / 16), HexDigit(b % 16)]
  }

  function PercentBytes(bs: seq<Byte>): (r: string)
    ensures |r| == 3 * |bs|
  {
    if bs == [] then "" else PercentByte(bs[0]) + PercentBytes(bs[1..])
  }

  function EncodeChar(c: char): string {
    if IsUnreserved(c) then [c] else PercentBytes(Utf8(c))
  }

  /** Every character is unreserved or `%`, and every `%` starts a complete
      escape of two hexadecimal digits. */
  predicate Escaped(r: string) {
    (forall i :: 0 <= i < |r| ==> IsUnreserved(r[i]) || r[i] == '%') &&
    (forall i :: 0 <= i < |r| && r[i] == '%' ==> i + 2 < |r| && IsHexDigit(r[i + 1]) && IsHexDigit(r[i + 2]))
  }

  lemma EscapedConcat(a: string, b: string)
    requires Escaped(a) && Escaped(b)
    ensures Escaped(a + b)
  {
    var s := a + b;
    forall i | 0 <= i < |s| ensures IsUnreserved(s[i]) || s[i] == '%' {
      if i >= |a| { assert s[i] == b[i - |a|]; }
    }
    forall i | 0 <= i < |s| && s[i] == '%'
      ensures i + 2 < |s| && IsHexDigit(s[i + 1]) && IsHexDigit(s[i + 2])
    {
      if i >= |a| {
        assert b[i - |a|] == '%';
      } else {
        assert a[i] == '%';
      }
    }
  }

  lemma {:induction false} PercentBytesEscaped(bs: seq<Byte>)
    ensures Escaped(PercentBytes(bs))
    decreases |bs|
  {
    if bs != [] {
      var e := PercentByte(bs[0]);
      assert Escaped(e) by {
        assert e[1] == HexDigit(bs[0] / 16) && e[2] == HexDigit(bs[0] % 16);
      }
      PercentBytesEscaped(bs[1..]);
      EscapedConcat(e, PercentBytes(bs[1..]));
    }
  }

  /** `encodeURIComponent(s)`. Its result is always escaped. */
  function EncodeUriComponent(s: string): (r: string)
    ensures Escaped(r)
    ensures |r| >= |s|
    decreases |s|
  {
    if s == [] then ""
    else
      var e := EncodeChar(s[0]);
      var t := EncodeUriComponent(s[1..]);
      PercentBytesEscaped(Utf8(s[0]));
      EscapedConcat(e, t);
      e + t
  }

  /** Unreserved characters pass through verbatim: a string made only of
      them is its own encoding. */
  lemma {:induction false} EncodeKeepsUnreserved(s: string)
    requires forall i :: 0 <= i < |s| ==> IsUnreserved(s[i])
    ensures EncodeUriComponent(s) == s
    decreases |s|
  {
    if s != [] {
      EncodeKeepsUnreserved(s[1..]);
      assert [s[0]] + s[1..] == s;
    }
  }

  /** The encoding works character by character: encoding a concatenation
      concatenates the encodings. */
  lemma {:induction false} EncodeConcat(a: string, b: string)
    ensures EncodeUriComponent(a + b) == EncodeUriComponent(a) + EncodeUriComponent(b)
    decreases |a|
  {
    if a != [] {
      assert (a + b)[1..] == a[1..] + b;
      EncodeConcat(a[1..], b);
    } else {
      assert a + b == b;
    }
  }

  /** An unreserved character passes through verbatim wherever it stands,
      whatever the rest of the string holds. */
  lemma EncodeKeepsUnreservedAt(a: string, c: char, b: string)
    requires IsUnreserved(c)
    ensures EncodeUriComponent(a + [c] + b) ==
      EncodeUriComponent(a) + [c] + EncodeUriComponent(b)
  {
    EncodeConcat(a + [c], b);
    EncodeConcat(a, [c]);
    EncodeKeepsUnreserved([c]);
  }

  /** Any other character is written as the escapes of its UTF-8 bytes, so
      the encoding grows by at least two characters. */
  lemma {:induction false} EncodeEscapesReserved(s: string, i: nat)
    requires i < |s| && !IsUnreserved(s[i])
    ensures |EncodeUriComponent(s)| >= |s| + 2
    decreases |s|
  {
    if i > 0 {
      EncodeEscapesReserved(s[1..], i - 1);
    }
  }

  /** A string is its own encoding exactly when every character is unreserved. */
  lemma EncodeIdentityIff(s: string)
    ensures EncodeUriComponent(s) == s <==> forall i :: 0 <= i < |s| ==> IsUnreserved(s[i])
  {
    if forall i :: 0 <= i < |s| ==> IsUnreserved(s[i]) {
      EncodeKeepsUnreserved(s);
    } else {
      var i :| 0 <= i < |s| && !IsUnreserved(s[i]);
      EncodeEscapesReserved(s, i);
    }
  }

  /** An escaped string cannot contain a token such as `%TITLE%`, `%BODY%` or
      `%VERSION%`: a `%` is always followed by two hexadecimal digits. */
  lemma EscapedAvoidsToken(r: string, t: string, i: int)
    requires Escaped(r)
    requires |t| >= 3 && t[0] == '%' && !(IsHexDigit(t[1]) && IsHexDigit(t[2]))
    ensures !OccursAt(r, t, i)
  {
  }

  // ---------------------------------------------------------------------------
  // Decoding, the partner of the encoder
  // ---------------------------------------------------------------------------

  /** The digits an escape may be read with: either case. */
  predicate IsAnyHexDigit(c: char) {
    IsHexDigit(c) || ('a' <= c <= 'f')
  }

  /** The value of a digit of either case; it agrees with `HexValue` on the
      digits the encoder writes. */
  function AnyHexValue(c: char): (d: nat)
    requires IsAnyHexDigit(c)
    ensures d < 16
    ensures IsHexDigit(c) ==> d == HexValue(c)
  {
    if IsHexDigit(c) then HexValue(c) else c as int - 'a' as int + 10
  }

  /** The byte written as `%HH` at index `i` of `s`, if there is one. */
  function ByteAt(s: string, i: nat): Option<Byte> {
    if i + 2 < |s| && s[i] == '%' && IsAnyHexDigit(s[i + 1]) && IsAnyHexDigit(s[i + 2])
    then Some(AnyHexValue(s[i + 1]) * 16 + AnyHexValue(s[i + 2]))
    else None
  }

  /** The six payload bits of a continuation byte escaped at index `3 * k`. */
  function ContinuationAt(s: string, k: nat): Option<int> {
    match ByteAt(s, 3 * k)
    case Some(b) => if 0x80 <= b < 0xC0 then Some(b - 0x80) else None
    case None => None
  }

  /** `n` as a character, when it is a scalar value of at least `min`
      (smaller values would be an overlong encoding). */
  function ToScalar(n: int, min: int): Option<char> {
    if 0 <= n && min <= n && (n < 0xD800 || 0xE000 <= n <= 0x10FFFF) then Some(n as char) else None
  }

  function WithLength(c: Option<char>, k: nat): Option<(char, nat)> {
    match c
    case Some(ch) => Some((ch, k))
    case None => None
  }

  /** The character whose UTF-8 escapes start `s`, and how many characters of
      `s` they take. */
  function DecodeEscape(s: string): (r: Option<(char, nat)>)
    ensures r.Some? ==> 3 <= r.value.1 <= |s|
  {
    match ByteAt(s, 0)
    case None => None
    case Some(b) =>
      if b < 0x80 then Some((b as char, 3))
      else if 0xC0 <= b < 0xE0 then
        match ContinuationAt(s, 1)
        case Some(c1) => WithLength(ToScalar((b - 0xC0) * 64 + c1, 0x80), 6)
        case None => None
      else if 0xE0 <= b < 0xF0 then
        match (ContinuationAt(s, 1), ContinuationAt(s, 2))
        case (Some(c1), Some(c2)) => WithLength(ToScalar(((b - 0xE0) * 64 + c1) * 64 + c2, 0x800), 9)
        case _ => None
      else if 0xF0 <= b < 0xF8 then
        match (ContinuationAt(s, 1), ContinuationAt(s, 2), ContinuationAt(s, 3))
        case (Some(c1), Some(c2), Some(c3)) =>
          WithLength(ToScalar((((b - 0xF0) * 64 + c1) * 64 + c2) * 64 + c3, 0x10000), 12)
        case _ => None
      else None
  }

  /** `decodeURIComponent(s)`; `None` where it would throw `URIError`. */
  function DecodeUriComponent(s: string): Option<string>
    decreases |s|
  {
    if s == [] then Some("")
    else if s[0] != '%' then
      match DecodeUriComponent(s[1..])
      case Some(t) => Some([s[0]] + t)
      case None => None
    else
      match DecodeEscape(s)
      case None => None
      case Some((c, k)) =>
        match DecodeUriComponent(s[k..])
        case Some(t) => Some([c] + t)
        case None => None
  }

  function Prepend(c: char, d: Option<string>): Option<string> {
    match d
    case Some(t) => Some([c] + t)
    case None => None
  }

  lemma ByteAtShift(s: string, i: nat)
    requires |s| >= 3
    ensures ByteAt(s, i + 3) == ByteAt(s[3..], i)
  {
    if i + 2 < |s| - 3 {
      assert s[3..][i] == s[i + 3] && s[3..][i + 1] == s[i + 4] && s[3..][i + 2] == s[i + 5];
    }
  }

  /** The `k`-th escape of `PercentBytes(bs)` reads back as `bs[k]`. */
  lemma {:induction false} ByteAtPercentBytes(bs: seq<Byte>, rest: string, k: nat)
    requires k < |bs|
    ensures ByteAt(PercentBytes(bs) + rest, 3 * k) == Some(bs[k])
    decreases k
  {
    var s := PercentBytes(bs) + rest;
    assert s == PercentByte(bs[0]) + (PercentBytes(bs[1..]) + rest);
    if k == 0 {
      var b := bs[0];
      assert s[0] == '%' && s[1] == HexDigit(b / 16) && s[2] == HexDigit(b % 16);
    } else {
      ByteAtPercentBytes(bs[1..], rest, k - 1);
      ByteAtShift(s, 3 * (k - 1));
      assert s[3..] == PercentBytes(bs[1..]) + rest;
    }
  }

  lemma ContinuationAtPercentBytes(bs: seq<Byte>, rest: string, k: nat)
    requires k < |bs| && 0x80 <= bs[k] < 0xC0
    ensures ContinuationAt(PercentBytes(bs) + rest, k) == Some(bs[k] - 0x80)
  {
    ByteAtPercentBytes(bs, rest, k);
  }

  /** The escapes of a character's UTF-8 bytes decode to that character. */
  lemma DecodeEscapeTwo(c: char, rest: string)
    requires 0x80 <= c as int < 0x800
    ensures DecodeEscape(PercentBytes(Utf8(c)) + rest) == Some((c, 6))
  {
    var bs, n := Utf8(c), c as int;
    ByteAtPercentBytes(bs, rest, 0);
    ContinuationAtPercentBytes(bs, rest, 1);
    var b0: int, b1: int := bs[0], bs[1] - 0x80;
    assert (b0 - 0xC0) * 64 + b1 == n;
  }

  /** The three-byte form: the leading byte and the two six-bit groups put
      back together give the scalar value. */
  lemma Utf8ThreeDigits(n: int)
    requires 0x800 <= n < 0x10000
    ensures 0xE0 <= 0xE0 + n / 64 / 64 < 0xF0
    ensures (n / 64 / 64 * 64 + n / 64 % 64) * 64 + n % 64 == n
  {
    var q1, q2 := n / 64, n / 64 / 64;
    assert q1 * 64 + n % 64 == n;
    assert q2 * 64 + q1 % 64 == q1;
  }

  lemma DecodeEscapeThree(c: char, rest: string)
    requires 0x800 <= c as int < 0x10000
    ensures DecodeEscape(PercentBytes(Utf8(c)) + rest) == Some((c, 9))
  {
    var bs, n := Utf8(c), c as int;
    Utf8ThreeDigits(n);
    ByteAtPercentBytes(bs, rest, 0);
    ContinuationAtPercentBytes(bs, rest, 1);
    ContinuationAtPercentBytes(bs, rest, 2);
    var b0: int, b1: int, b2: int := bs[0], bs[1] - 0x80, bs[2] - 0x80;
    assert ((b0 - 0xE0) * 64 + b1) * 64 + b2 == n;
  }

  /** The four-byte form: the leading byte and the three six-bit groups put
      back together give the scalar value. */
  lemma Utf8FourDigits(n: int)
    requires 0x10000 <= n < 0x110000
    ensures 0xF0 <= 0xF0 + n / 64 / 64 / 64 < 0xF8
    ensures ((n / 64 / 64 / 64 * 64 + n / 64 / 64 % 64) * 64 + n / 64 % 64) * 64 + n % 64 == n
  {
    var q1, q2, q3 := n / 64, n / 64 / 64, n / 64 / 64 / 64;
    assert q1 * 64 + n % 64 == n;
    assert q2 * 64 + q1 % 64 == q1;
    assert q3 * 64 + q2 % 64 == q2;
  }

  lemma DecodeEscapeFour(c: char, rest: string)
    requires 0x10000 <= c as int
    ensures DecodeEscape(PercentBytes(Utf8(c)) + rest) == Some((c, 12))
  {
    var bs, n := Utf8(c), c as int;
    Utf8FourDigits(n);
    ByteAtPercentBytes(bs, rest, 0);
    ContinuationAtPercentBytes(bs, rest, 1);
    ContinuationAtPercentBytes(bs, rest, 2);
    ContinuationAtPercentBytes(bs, rest, 3);
    var b0: int, b1: int, b2: int, b3: int := bs[0], bs[1] - 0x80, bs[2] - 0x80, bs[3] - 0x80;
    assert (((b0 - 0xF0) * 64 + b1) * 64 + b2) * 64 + b3 == n;
  }

  /** The escapes of a character's UTF-8 bytes decode to that character. */
  lemma DecodeEscapeUtf8(c: char, rest: string)
    ensures DecodeEscape(PercentBytes(Utf8(c)) + rest) == Some((c, 3 * |Utf8(c)|))
  {
    var n := c as int;
    if n < 0x80 {
      ByteAtPercentBytes(Utf8(c), rest, 0);
    } else if n < 0x800 {
      DecodeEscapeTwo(c, rest);
    } else if n < 0x10000 {
      DecodeEscapeThree(c, rest);
    } else {
      DecodeEscapeFour(c, rest);
    }
  }

  lemma DecodeEncodeChar(c: char, rest: string)
    ensures DecodeUriComponent(EncodeChar(c) + rest) == Prepend(c, DecodeUriComponent(rest))
  {
    var s := EncodeChar(c) + rest;
    if IsUnreserved(c) {
      assert s[0] == c && s[1..] == rest;
    } else {
      var e := PercentBytes(Utf8(c));
      DecodeEscapeUtf8(c, rest);
      assert s[0] == '%';
      assert s[|e|..] == rest;
    }
  }

  /** `decodeURIComponent(encodeURIComponent(s)) === s`: the encoding loses
      nothing, so the issue tracker receives the text verbatim. */
  lemma {:induction false} DecodeEncode(s: string)
    ensures DecodeUriComponent(EncodeUriComponent(s)) == Some(s)
    decreases |s|
  {
    if s != [] {
      DecodeEncode(s[1..]);
      DecodeEncodeChar(s[0], EncodeUriComponent(s[1..]));
      assert [s[0]] + s[1..] == s;
    }
  }

  /** Escapes are read in either case, so a lower-case escape decodes too. */
  lemma DecodeLowerCaseEscape()
    ensures DecodeUriComponent("%2a") == Some("*")
    ensures DecodeUriComponent("%2A") == Some("*")
    ensures DecodeUriComponent("%c3%A9") == Some("\U{E9}")
    ensures DecodeUriComponent("%2") == None
  {
    assert AnyHexValue('a') == 10;
    assert ByteAt("%2a", 0) == Some(0x2A);
    assert DecodeEscape("%2a") == Some(('*', 3));
    assert "%2a"[3..] == [];
    assert DecodeUriComponent("") == Some("");
    assert ['*'] + "" == "*";
    assert ByteAt("%2A", 0) == Some(0x2A);
    assert "%2A"[3..] == [];
    var s := "%c3%A9";
    assert AnyHexValue('c') == 12;
    assert ByteAt(s, 0) == Some(0xC3);
    assert ByteAt(s, 3) == Some(0xA9);
    assert ContinuationAt(s, 1) == Some(0x29);
    assert ToScalar((0xC3 - 0xC0) * 64 + 0x29, 0x80) == Some('\U{E9}');
    assert DecodeEscape(s) == Some(('\U{E9}', 6));
    assert s[6..] == [];
    assert ['\U{E9}'] + "" == "\U{E9}";
  }

  /** Different strings encode differently. */
  lemma EncodeInjective(s: string, t: string)
    requires EncodeUriComponent(s) == EncodeUriComponent(t)
    ensures s == t
  {
    DecodeEncode(s);
    DecodeEncode(t);
  }
}
