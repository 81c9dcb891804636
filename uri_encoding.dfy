/** `encodeURIComponent`, as the share links use it: every character outside the unreserved
    set `A-Z a-z 0-9 - _ . ! ~ * ' ( )` is written as the percent-escapes of its UTF-8 bytes,
    with upper-case hexadecimal digits. Its partner is the matching decoder
    (`decodeURIComponent`), and the two make a round trip. A Dafny `char` is a Unicode scalar
    value, so the lone surrogates on which the JavaScript function throws cannot occur. */
module UriEncoding {
  import opened Wrappers

  type Byte = b: int | 0 <= b < 256

  /** The characters `encodeURIComponent` leaves as they are. */
  predicate IsUnreserved(c: char) {
    || 'A' <= c <= 'Z' || 'a' <= c <= 'z' || '0' <= c <= '9'
    || c == '-' || c == '_' || c == '.' || c == '!' || c == '~' || c == '*' || c == '\''
    || c == '(' || c == ')'
  }

  /** The UTF-8 encoding of one scalar value: one to four bytes, a lead byte that announces the
      length and continuation bytes that carry six bits each. */
  function Utf8(c: char): (r: seq<Byte>)
    ensures 1 <= |r| <= 4
    ensures |r| == 1 <==> c as int < 0x80
  {
    var n := c as int;
    if n < 0x80 then [n]
    else if n < 0x800 then [0xC0 + n / 64, 0x80 + n % 64]
    else if n < 0x10000 then [0xE0 + n / 64 / 64, 0x80 + n / 64 % 64, 0x80 + n % 64]
    else [0xF0 + n / 64 / 64 / 64, 0x80 + n / 64 / 64 % 64, 0x80 + n / 64 % 64, 0x80 + n % 64]
  }

  /** An upper-case hexadecimal digit. */
  function HexDigit(d: int): (r: char)
    requires 0 <= d < 16
    ensures '0' <= r <= '9' || 'A' <= r <= 'F'
  {
    if d < 10 then ('0' as int + d) as char else ('A' as int + d - 10) as char
  }

  /** `%XY` for one byte. */
  function PercentByte(b: Byte): (r: string)
    ensures |r| == 3 && r[0] == '%'
  {
    ['%', HexDigit(b / 16), HexDigit(b % 16)]
  }

  function PercentBytes(bs: seq<Byte>): (r: string)
    ensures |r| == 3 * |bs|
  {
    if bs == [] then [] else PercentByte(bs[0]) + PercentBytes(bs[1..])
  }

  /** One character, encoded. */
  function EncodeChar(c: char): (r: string)
    ensures r != []
    ensures IsUnreserved(c) ==> r == [c]
    ensures !IsUnreserved(c) ==> r[0] == '%' && |r| == 3 * |Utf8(c)|
  {
    if IsUnreserved(c) then [c] else PercentBytes(Utf8(c))
  }

  /** A character that can appear in an encoded component. */
  predicate IsEncodedChar(c: char) {
    IsUnreserved(c) || c == '%'
  }

  /** `encodeURIComponent(s)`: only unreserved characters and `%` are left. */
  function Encode(s: string): (r: string)
    ensures |r| >= |s|
    ensures forall i :: 0 <= i < |r| ==> IsEncodedChar(r[i])
  {
    if s == [] then []
    else
      var head := EncodeChar(s[0]);
      assert forall i :: 0 <= i < |head| ==> IsEncodedChar(head[i]) by {
        if !IsUnreserved(s[0]) {
          PercentBytesAlphabet(Utf8(s[0]));
        }
      }
      head + Encode(s[1..])
  }

  lemma {:induction false} PercentBytesAlphabet(bs: seq<Byte>)
    ensures forall i :: 0 <= i < |PercentBytes(bs)| ==> IsEncodedChar(PercentBytes(bs)[i])
  {
    if bs != [] {
      PercentBytesAlphabet(bs[1..]);
      var p := PercentByte(bs[0]);
      assert forall i :: 0 <= i < |p| ==> IsEncodedChar(p[i]);
    }
  }

  /** Every character of an encoded component is unreserved or `%`. */
  lemma EncodedChars(s: string)
    ensures forall c :: c in Encode(s) ==> IsEncodedChar(c)
  {
    var r := Encode(s);
    forall c | c in r
      ensures IsEncodedChar(c)
    {
      var i :| 0 <= i < |r| && r[i] == c;
    }
  }

  /** An encoded component holds none of the characters that delimit a URL's query: a value
      cannot end its parameter, start another, or start a fragment. */
  lemma NoQueryDelimiters(s: string)
    ensures '&' !in Encode(s) && '=' !in Encode(s) && '?' !in Encode(s) && '#' !in Encode(s)
    ensures '/' !in Encode(s) && ':' !in Encode(s) && ' ' !in Encode(s)
  {
    EncodedChars(s);
    assert !IsEncodedChar('&') && !IsEncodedChar('=') && !IsEncodedChar('?') && !IsEncodedChar('#');
    assert !IsEncodedChar('/') && !IsEncodedChar(':') && !IsEncodedChar(' ');
  }

  /** Encoding leaves a string of unreserved characters as it is. */
  lemma {:induction false} EncodeUnreserved(s: string)
    requires forall i :: 0 <= i < |s| ==> IsUnreserved(s[i])
    ensures Encode(s) == s
  {
    if s != [] {
      EncodeUnreserved(s[1..]);
      assert [s[0]] + s[1..] == s;
    }
  }

  // Decoding

  /** The value of a hexadecimal digit of either case. */
  function HexValue(c: char): (r: Option<int>)
    ensures r.Some? ==> 0 <= r.value < 16
  {
    if '0' <= c <= '9' then Some(c as int - '0' as int)
    else if 'A' <= c <= 'F' then Some(c as int - 'A' as int + 10)
    else if 'a' <= c <= 'f' then Some(c as int - 'a' as int + 10)
    else None
  }

  /** The byte escaped at `s[i..i + 3]`, if that is a well-formed escape. */
  function ByteAt(s: string, i: nat): (r: Option<Byte>)
    ensures r.Some? ==> i + 3 <= |s|
  {
    if i + 3 <= |s| && s[i] == '%' && HexValue(s[i + 1]).Some? && HexValue(s[i + 2]).Some? then
      Some(16 * HexValue(s[i + 1]).value + HexValue(s[i + 2]).value)
    else None
  }

  /** The six payload bits of the continuation byte escaped at `s[i..i + 3]`. */
  function Continuation(s: string, i: nat): (r: Option<int>)
    ensures r.Some? ==> i + 3 <= |s| && 0 <= r.value < 64
  {
    match ByteAt(s, i)
    case Some(b) => if 0x80 <= b < 0xC0 then Some(b - 0x80) else None
    case None => None
  }

  /** One decoded character and the number of encoded characters it took. */
  datatype Decoded = Decoded(c: char, width: nat)

  /** A code point, if it is a scalar value. */
  function Scalar(cp: int, width: nat): (r: Option<Decoded>)
    ensures r.Some? ==> r.value.c as int == cp && r.value.width == width
    ensures r.None? <==> !(0 <= cp < 0xD800 || 0xE000 <= cp < 0x110000)
  {
    if 0 <= cp < 0xD800 || 0xE000 <= cp < 0x110000 then Some(Decoded(cp as char, width)) else None
  }

  /** The character whose UTF-8 escapes start `s`: a lead byte, then as many continuation
      bytes as it announces; overlong forms, surrogates and values past U+10FFFF are
      refused. */
  function DecodeEscape(s: string): (r: Option<Decoded>)
    ensures r.Some? ==> 3 <= r.value.width <= |s|
  {
    match ByteAt(s, 0)
    case None => None
    case Some(b0) =>
      if b0 < 0x80 then Scalar(b0, 3)
      else if 0xC2 <= b0 < 0xE0 then
        match Continuation(s, 3)
        case None => None
        case Some(b1) => Scalar((b0 - 0xC0) * 64 + b1, 6)
      else if 0xE0 <= b0 < 0xF0 then
        match (Continuation(s, 3), Continuation(s, 6))
        case (Some(b1), Some(b2)) =>
          var cp := ((b0 - 0xE0) * 64 + b1) * 64 + b2;
          if cp < 0x800 then None else Scalar(cp, 9)
        case _ => None
      else if 0xF0 <= b0 < 0xF5 then
        match (Continuation(s, 3), Continuation(s, 6), Continuation(s, 9))
        case (Some(b1), Some(b2), Some(b3)) =>
          var cp := (((b0 - 0xF0) * 64 + b1) * 64 + b2) * 64 + b3;
          if cp < 0x10000 then None else Scalar(cp, 12)
        case _ => None
      else None
  }

  /** `decodeURIComponent(s)`: escapes become the characters they encode, every other
      character stands for itself, and a malformed escape is an error. */
  function Decode(s: string): (r: Option<string>)
    decreases |s|
  {
    if s == [] then Some([])
    else if s[0] != '%' then
      match Decode(s[1..])
      case Some(t) => Some([s[0]] + t)
      case None => None
    else
      match DecodeEscape(s)
      case None => None
      case Some(d) =>
        match Decode(s[d.width..])
        case Some(t) => Some([d.c] + t)
        case None => None
  }

  lemma HexDigitValue(d: int)
    requires 0 <= d < 16
    ensures HexValue(HexDigit(d)) == Some(d)
  {
  }

  /** Reading back the escape of a byte gives the byte. */
  lemma ByteAtPercentByte(b: Byte, t: string)
    ensures ByteAt(PercentByte(b) + t, 0) == Some(b)
  {
    HexDigitValue(b / 16);
    HexDigitValue(b % 16);
  }

  /** An escape read after a prefix is the escape read in what follows the prefix. */
  lemma ByteAtShift(p: string, u: string, i: nat)
    ensures ByteAt(p + u, |p| + i) == ByteAt(u, i)
  {
    if i + 3 <= |u| {
      assert (p + u)[|p| + i..|p| + i + 3] == u[i..i + 3];
    }
  }

  /** The `k`-th escape of a run of escapes is the `k`-th byte. */
  lemma {:induction false} ByteAtPercentBytes(bs: seq<Byte>, t: string, k: nat)
    requires k < |bs|
    ensures ByteAt(PercentBytes(bs) + t, 3 * k) == Some(bs[k])
  {
    var u := PercentBytes(bs[1..]) + t;
    assert PercentBytes(bs) + t == PercentByte(bs[0]) + u;
    if k == 0 {
      ByteAtPercentByte(bs[0], u);
    } else {
      ByteAtPercentBytes(bs[1..], t, k - 1);
      ByteAtShift(PercentByte(bs[0]), u, 3 * (k - 1));
    }
  }

  /** The escapes of a character's UTF-8 bytes decode to that character. */
  lemma DecodeEscapeOfChar(c: char, t: string)
    requires !IsUnreserved(c)
    ensures DecodeEscape(EncodeChar(c) + t) == Some(Decoded(c, |EncodeChar(c)|))
  {
    var n := c as int;
    var bs := Utf8(c);
    assert EncodeChar(c) + t == PercentBytes(bs) + t;
    if n < 0x80 {
      DecodeOneByte(bs, t, n);
    } else if n < 0x800 {
      DecodeTwoBytes(bs, t, n);
    } else if n < 0x10000 {
      DecodeThreeBytes(bs, t, n);
    } else {
      DecodeFourBytes(bs, t, n);
    }
  }

  lemma DecodeOneByte(bs: seq<Byte>, t: string, n: int)
    requires 0 <= n < 0x80 && bs == [n]
    ensures DecodeEscape(PercentBytes(bs) + t) == Some(Decoded(n as char, 3))
  {
    ByteAtPercentBytes(bs, t, 0);
  }

  lemma DecodeTwoBytes(bs: seq<Byte>, t: string, n: int)
    requires 0x80 <= n < 0x800
    requires bs == [0xC0 + n / 64, 0x80 + n % 64]
    ensures DecodeEscape(PercentBytes(bs) + t) == Some(Decoded(n as char, 6))
  {
    var s := PercentBytes(bs) + t;
    ByteAtPercentBytes(bs, t, 0);
    ByteAtPercentBytes(bs, t, 1);
    assert Continuation(s, 3) == Some(n % 64);
  }

  lemma DecodeThreeBytes(bs: seq<Byte>, t: string, n: int)
    requires 0x800 <= n < 0x10000 && !(0xD800 <= n < 0xE000)
    requires bs == [0xE0 + n / 64 / 64, 0x80 + n / 64 % 64, 0x80 + n % 64]
    ensures DecodeEscape(PercentBytes(bs) + t) == Some(Decoded(n as char, 9))
  {
    var s := PercentBytes(bs) + t;
    ByteAtPercentBytes(bs, t, 0);
    ByteAtPercentBytes(bs, t, 1);
    ByteAtPercentBytes(bs, t, 2);
    DecodeThreeEscapes(s, bs[0], bs[1] - 0x80, bs[2] - 0x80);
  }

  /** Three escapes that form a lead byte and two continuation bytes decode to the code point
      their payload bits spell. */
  lemma DecodeThreeEscapes(s: string, b0: Byte, b1: int, b2: int)
    requires 0xE0 <= b0 < 0xF0 && 0 <= b1 < 64 && 0 <= b2 < 64
    requires ByteAt(s, 0) == Some(b0) && ByteAt(s, 3) == Some(b1 + 0x80) && ByteAt(s, 6) == Some(b2 + 0x80)
    requires 0x800 <= ((b0 - 0xE0) * 64 + b1) * 64 + b2 && !(0xD800 <= ((b0 - 0xE0) * 64 + b1) * 64 + b2 < 0xE000)
    ensures DecodeEscape(s) == Some(Decoded((((b0 - 0xE0) * 64 + b1) * 64 + b2) as char, 9))
  {
    assert Continuation(s, 3) == Some(b1);
    assert Continuation(s, 6) == Some(b2);
  }

  lemma DecodeFourBytes(bs: seq<Byte>, t: string, n: int)
    requires 0x10000 <= n < 0x110000
    requires bs == [0xF0 + n / 64 / 64 / 64, 0x80 + n / 64 / 64 % 64, 0x80 + n / 64 % 64, 0x80 + n % 64]
    ensures DecodeEscape(PercentBytes(bs) + t) == Some(Decoded(n as char, 12))
  {
    var s := PercentBytes(bs) + t;
    ByteAtPercentBytes(bs, t, 0);
    ByteAtPercentBytes(bs, t, 1);
    ByteAtPercentBytes(bs, t, 2);
    ByteAtPercentBytes(bs, t, 3);
    DecodeFourEscapes(s, bs[0], bs[1] - 0x80, bs[2] - 0x80, bs[3] - 0x80);
  }

  /** Four escapes that form a lead byte and three continuation bytes decode to the code point
      their payload bits spell. */
  lemma DecodeFourEscapes(s: string, b0: Byte, b1: int, b2: int, b3: int)
    requires 0xF0 <= b0 < 0xF5 && 0 <= b1 < 64 && 0 <= b2 < 64 && 0 <= b3 < 64
    requires ByteAt(s, 0) == Some(b0) && ByteAt(s, 3) == Some(b1 + 0x80)
    requires ByteAt(s, 6) == Some(b2 + 0x80) && ByteAt(s, 9) == Some(b3 + 0x80)
    requires 0x10000 <= (((b0 - 0xF0) * 64 + b1) * 64 + b2) * 64 + b3 < 0x110000
    ensures DecodeEscape(s) == Some(Decoded(((((b0 - 0xF0) * 64 + b1) * 64 + b2) * 64 + b3) as char, 12))
  {
    assert Continuation(s, 3) == Some(b1);
    assert Continuation(s, 6) == Some(b2);
    assert Continuation(s, 9) == Some(b3);
  }

  /** Decoding undoes encoding: `decodeURIComponent(encodeURIComponent(s)) === s`. */
  lemma {:induction false} DecodeEncode(s: string)
    ensures Decode(Encode(s)) == Some(s)
  {
    if s != [] {
      var head := EncodeChar(s[0]);
      var tail := Encode(s[1..]);
      DecodeEncode(s[1..]);
      assert Encode(s) == head + tail;
      if IsUnreserved(s[0]) {
        assert (head + tail)[1..] == tail;
      } else {
        DecodeEscapeOfChar(s[0], tail);
        assert (head + tail)[|head|..] == tail;
      }
      assert [s[0]] + s[1..] == s;
    }
  }

  /** Encoding is one-to-one: different strings never share an encoding. */
  lemma EncodeInjective(s: string, t: string)
    requires Encode(s) == Encode(t)
    ensures s == t
  {
    DecodeEncode(s);
    DecodeEncode(t);
  }
}
