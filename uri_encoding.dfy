/**
 * `encodeURIComponent` (ECMA-262, section 19.2.6.5): every character outside
 * the unreserved set `A-Z a-z 0-9 - _ . ! ~ * ' ( )` is written as the `%XX`
 * escapes of its UTF-8 bytes, in the manner of section 2.1 of RFC 3986.
 * The decoder at the end of the module is the inverse that the round-trip
 * lemma is stated with.
 */
module UriEncoding {
  import opened Wrappers

  type Byte = b: int | 0 <= b < 256

  /** The characters `encodeURIComponent` passes through unchanged. */
  predicate IsUnreserved(c: char) {
    ('A' <= c <= 'Z') || ('a' <= c <= 'z') || ('0' <= c <= '9')
    || c == '-' || c == '_' || c == '.' || c == '!' || c == '~' || c == '*'
    || c == '\'' || c == '(' || c == ')'
  }

  /** The UTF-8 encoding of one Unicode scalar value (RFC 3629, section 3). */
  function Utf8(c: char): (bytes: seq<Byte>)
    ensures 1 <= |bytes| <= 4
    ensures (|bytes| == 1) == (c as int < 0x80)
  {
    var cp := c as int;
    var q1 := cp / 0x40;
    var q2 := q1 / 0x40;
    var q3 := q2 / 0x40;
    if cp < 0x80 then [cp]
    else if cp < 0x800 then [0xC0 + q1, 0x80 + cp % 0x40]
    else if cp < 0x10000 then [0xE0 + q2, 0x80 + q1 % 0x40, 0x80 + cp % 0x40]
    else [0xF0 + q3, 0x80 + q2 % 0x40, 0x80 + q1 % 0x40, 0x80 + cp % 0x40]
  }

  /** The UTF-8 encoding of a string. */
  function Utf8String(s: string): seq<Byte> {
    if s == [] then [] else Utf8(s[0]) + Utf8String(s[1..])
  }

  /** Upper-case hexadecimal digit, as `encodeURIComponent` writes it. */
  function HexDigit(n: nat): (c: char)
    requires n < 16
    ensures IsUnreserved(c)
  {
    if n < 10 then (n + '0' as int) as char else (n - 10 + 'A' as int) as char
  }

  /** The value of a hexadecimal digit of either case. */
  function HexValue(c: char): (v: Option<nat>)
    ensures v.Some? ==> v.value < 16
  {
    if '0' <= c <= '9' then Some(c as int - '0' as int)
    else if 'A' <= c <= 'F' then Some(c as int - 'A' as int + 10)
    else if 'a' <= c <= 'f' then Some(c as int - 'a' as int + 10)
    else None
  }

  /** `%XX` for each byte. */
  function PercentEscape(bytes: seq<Byte>): (r: string)
    ensures |r| == 3 * |bytes|
    ensures forall i :: 0 <= i < |r| ==> r[i] == '%' || IsUnreserved(r[i])
  {
    if bytes == [] then []
    else ['%', HexDigit(bytes[0] / 16), HexDigit(bytes[0] % 16)] + PercentEscape(bytes[1..])
  }

  function EncodeChar(c: char): (r: string)
    ensures forall i :: 0 <= i < |r| ==> r[i] == '%' || IsUnreserved(r[i])
  {
    if IsUnreserved(c) then [c] else PercentEscape(Utf8(c))
  }

  /** `encodeURIComponent`: the result holds only unreserved characters and `%`. */
  function EncodeUriComponent(s: string): (r: string)
    ensures forall i :: 0 <= i < |r| ==> r[i] == '%' || IsUnreserved(r[i])
  {
    if s == [] then [] else EncodeChar(s[0]) + EncodeUriComponent(s[1..])
  }

  /** Undoes the `%XX` escapes; `None` on a malformed escape or a non-ASCII character. */
  function PercentDecode(s: string): Option<seq<Byte>> {
    if s == [] then Some([])
    else if s[0] == '%' then
      if |s| < 3 then None
      else
        match (HexValue(s[1]), HexValue(s[2]), PercentDecode(s[3..]))
        case (Some(hi), Some(lo), Some(rest)) => Some([16 * hi + lo] + rest)
        case _ => None
    else if s[0] as int < 0x80 then
      match PercentDecode(s[1..])
      case Some(rest) => Some([s[0] as int] + rest)
      case None => None
    else None
  }

  /** The length of the UTF-8 sequence a lead byte announces; 0 for a byte that cannot lead. */
  function SequenceLength(lead: Byte): nat {
    if lead < 0x80 then 1
    else if lead < 0xC0 then 0
    else if lead < 0xE0 then 2
    else if lead < 0xF0 then 3
    else if lead < 0xF8 then 4
    else 0
  }

  predicate IsContinuation(b: Byte) {
    0x80 <= b < 0xC0
  }

  /** The code point a lead byte and its continuation bytes carry. */
  function CodePoint(bytes: seq<Byte>): int
    requires 1 <= |bytes| <= 4
  {
    var b := seq(|bytes|, i requires 0 <= i < |bytes| => bytes[i] as int);
    if |b| == 1 then b[0]
    else if |b| == 2 then (b[0] - 0xC0) * 0x40 + (b[1] - 0x80)
    else if |b| == 3 then ((b[0] - 0xE0) * 0x40 + (b[1] - 0x80)) * 0x40 + (b[2] - 0x80)
    else (((b[0] - 0xF0) * 0x40 + (b[1] - 0x80)) * 0x40 + (b[2] - 0x80)) * 0x40 + (b[3] - 0x80)
  }

  predicate IsScalarValue(v: int) {
    0 <= v < 0xD800 || 0xE000 <= v < 0x110000
  }

  /** Reads a UTF-8 byte sequence back into characters. */
  function DecodeUtf8(bytes: seq<Byte>): Option<string>
    decreases |bytes|
  {
    if bytes == [] then Some([])
    else
      var n := SequenceLength(bytes[0]);
      if n == 0 || |bytes| < n then None
      else if exists i :: 1 <= i < n && !IsContinuation(bytes[i]) then None
      else
        var v := CodePoint(bytes[..n]);
        if !IsScalarValue(v) then None
        else
          match DecodeUtf8(bytes[n..])
          case Some(rest) => Some([v as char] + rest)
          case None => None
  }

  /** `decodeURIComponent` on the strings `encodeURIComponent` produces. */
  function DecodeUriComponent(s: string): Option<string> {
    match PercentDecode(s)
    case Some(bytes) => DecodeUtf8(bytes)
    case None => None
  }

  /** The lead byte of a character's encoding announces its length, and the bytes carry the character. */
  lemma Utf8Decodes(c: char)
    ensures SequenceLength(Utf8(c)[0]) == |Utf8(c)|
    ensures forall i :: 1 <= i < |Utf8(c)| ==> IsContinuation(Utf8(c)[i])
    ensures CodePoint(Utf8(c)) == c as int
  {
    var cp := c as int;
    var q1 := cp / 0x40;
    var q2 := q1 / 0x40;
    assert cp == q1 * 0x40 + cp % 0x40;
    assert q1 == q2 * 0x40 + q1 % 0x40;
    assert q2 == (q2 / 0x40) * 0x40 + q2 % 0x40;
  }

  lemma HexRoundTrip(n: nat)
    requires n < 16
    ensures HexValue(HexDigit(n)) == Some(n)
  {
  }

  /** Decoding escapes that stand in front of a decodable rest. */
  lemma {:induction false} PercentEscapeDecodes(bytes: seq<Byte>, rest: string, tail: seq<Byte>)
    requires PercentDecode(rest) == Some(tail)
    ensures PercentDecode(PercentEscape(bytes) + rest) == Some(bytes + tail)
  {
    if bytes == [] {
      assert PercentEscape(bytes) + rest == rest && bytes + tail == tail;
    } else {
      var b := bytes[0];
      var s := PercentEscape(bytes) + rest;
      PercentEscapeDecodes(bytes[1..], rest, tail);
      assert s[3..] == PercentEscape(bytes[1..]) + rest;
      HexRoundTrip(b / 16);
      HexRoundTrip(b % 16);
      assert s[0] == '%' && s[1] == HexDigit(b / 16) && s[2] == HexDigit(b % 16);
      assert 16 * (b / 16) + b % 16 == b;
      assert [b] + (bytes[1..] + tail) == bytes + tail;
      assert PercentDecode(s) == Some([16 * (b / 16) + b % 16] + (bytes[1..] + tail));
    }
  }

  /** Percent-decoding what `encodeURIComponent` wrote gives the UTF-8 bytes of the input. */
  lemma {:induction false} EncodePercentDecodes(s: string)
    ensures PercentDecode(EncodeUriComponent(s)) == Some(Utf8String(s))
  {
    if s != [] {
      var c := s[0];
      var rest := EncodeUriComponent(s[1..]);
      EncodePercentDecodes(s[1..]);
      if IsUnreserved(c) {
        assert ([c] + rest)[1..] == rest;
      } else {
        PercentEscapeDecodes(Utf8(c), rest, Utf8String(s[1..]));
      }
    }
  }

  /** UTF-8 decoding undoes UTF-8 encoding. */
  lemma {:induction false} Utf8RoundTrip(s: string)
    ensures DecodeUtf8(Utf8String(s)) == Some(s)
  {
    if s == [] {
      assert Utf8String(s) == [];
    } else {
      var c := s[0];
      var bytes := Utf8String(s);
      var n := |Utf8(c)|;
      Utf8Decodes(c);
      Utf8RoundTrip(s[1..]);
      assert bytes[..n] == Utf8(c);
      assert bytes[n..] == Utf8String(s[1..]);
      assert bytes[0] == Utf8(c)[0];
      assert forall i :: 1 <= i < n ==> bytes[i] == Utf8(c)[i];
      assert IsScalarValue(c as int);
      assert DecodeUtf8(bytes) == Some([c] + s[1..]);
      assert [c] + s[1..] == s;
    }
  }

  /** `decodeURIComponent(encodeURIComponent(s)) == s`: the encoding loses nothing. */
  lemma EncodeRoundTrip(s: string)
    ensures DecodeUriComponent(EncodeUriComponent(s)) == Some(s)
  {
    EncodePercentDecodes(s);
    Utf8RoundTrip(s);
  }
}
