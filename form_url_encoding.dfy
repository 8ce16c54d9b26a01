/**
 * `java.net.URLEncoder.encode(s, "UTF-8")`: the
 * `application/x-www-form-urlencoded` scheme of section 17.13.4.1 of the
 * HTML 4.01 specification. ASCII letters, digits and `.` `-` `*` `_` stay as
 * they are, a space becomes `+`, and every other character becomes `%XY`
 * for each byte of its UTF-8 encoding, in upper-case hex. The matching
 * decoder turns `+` back into a space and `%XY` into a byte, and reads the
 * bytes as UTF-8.
 */
module FormUrlEncoding {
  import opened Wrappers

  type Byte = b: int | 0 <= b < 256

  /** The characters the encoder leaves as they are. */
  predicate IsUnreserved(c: char) {
    ('a' <= c <= 'z') || ('A' <= c <= 'Z') || ('0' <= c <= '9') || c == '.' || c == '-' || c == '*' || c == '_'
  }

  /** The characters an encoded string is made of. */
  predicate IsFormSafe(c: char) {
    IsUnreserved(c) || c == '+' || c == '%'
  }

  /** The UTF-8 bytes of one Unicode scalar value (section 3 of RFC 3629). */
  function Utf8(c: char): (bs: seq<Byte>)
    ensures 1 <= |bs| <= 4
    ensures (|bs| == 1) == (c as int < 0x80)
  {
    var x := c as int;
    if x < 0x80 then [x]
    else if x < 0x800 then [0xC0 + x / 64, 0x80 + x % 64]
    else if x < 0x10000 then [0xE0 + x / 4096, 0x80 + (x / 64) % 64, 0x80 + x % 64]
    else [0xF0 + x / 262144, 0x80 + (x / 4096) % 64, 0x80 + (x / 64) % 64, 0x80 + x % 64]
  }

  function Utf8Encode(s: string): seq<Byte> {
    if s == [] then [] else Utf8(s[0]) + Utf8Encode(s[1..])
  }

  predicate IsContinuation(b: Byte) {
    0x80 <= b < 0xC0
  }

  /**
   * Reads one character off the front of `bs`: the character and the number
   * of bytes it took, or none for a malformed, overlong or surrogate sequence.
   */
  function DecodeFirst(bs: seq<Byte>): (r: Option<(char, nat)>)
    requires |bs| > 0
    ensures r.Some? ==> 1 <= r.value.1 <= |bs|
  {
    var b0: int := bs[0];
    if b0 < 0x80 then Some((b0 as char, 1))
    else if 0xC2 <= b0 < 0xE0 then
      if |bs| >= 2 && IsContinuation(bs[1]) then
        Some((Decode2(b0, bs[1]) as char, 2))
      else None
    else if 0xE0 <= b0 < 0xF0 then
      if |bs| >= 3 && IsContinuation(bs[1]) && IsContinuation(bs[2]) then
        var x := Decode3(b0, bs[1], bs[2]);
        if 0x800 <= x && !(0xD800 <= x < 0xE000) then Some((x as char, 3)) else None
      else None
    else if 0xF0 <= b0 < 0xF5 then
      if |bs| >= 4 && IsContinuation(bs[1]) && IsContinuation(bs[2]) && IsContinuation(bs[3]) then
        var x := Decode4(b0, bs[1], bs[2], bs[3]);
        if 0x10000 <= x < 0x110000 then Some((x as char, 4)) else None
      else None
    else None
  }

  /** The code point of a two-, three- or four-byte sequence: the lead byte's payload, then six bits per continuation byte. */
  function Decode2(b0: int, b1: int): (x: int)
    requires 0xC2 <= b0 < 0xE0 && 0x80 <= b1 < 0xC0
    ensures 0x80 <= x < 0x800
  {
    (b0 - 0xC0) * 64 + (b1 - 0x80)
  }

  function Decode3(b0: int, b1: int, b2: int): (x: int)
    requires 0xE0 <= b0 < 0xF0 && 0x80 <= b1 < 0xC0 && 0x80 <= b2 < 0xC0
    ensures 0 <= x < 0x10000
  {
    (b0 - 0xE0) * 4096 + (b1 - 0x80) * 64 + (b2 - 0x80)
  }

  function Decode4(b0: int, b1: int, b2: int, b3: int): (x: int)
    requires 0xF0 <= b0 < 0xF5 && 0x80 <= b1 < 0xC0 && 0x80 <= b2 < 0xC0 && 0x80 <= b3 < 0xC0
    ensures 0 <= x
  {
    (b0 - 0xF0) * 262144 + (b1 - 0x80) * 4096 + (b2 - 0x80) * 64 + (b3 - 0x80)
  }

  function Utf8Decode(bs: seq<Byte>): Option<string>
    decreases |bs|
  {
    if bs == [] then Some([])
    else
      match DecodeFirst(bs)
      case None => None
      case Some((c, n)) => Prepend([c], Utf8Decode(bs[n..]))
  }

  /** One upper-case hexadecimal digit. */
  function HexDigit(n: int): (c: char)
    requires 0 <= n < 16
    ensures ('0' <= c <= '9') || ('A' <= c <= 'F')
  {
    if n < 10 then (48 + n) as char else (55 + n) as char
  }

  /** The value of a hexadecimal digit of either case. */
  function HexValue(c: char): (r: Option<int>)
    ensures r.Some? ==> 0 <= r.value < 16
  {
    if '0' <= c <= '9' then Some(c as int - 48)
    else if 'A' <= c <= 'F' then Some(c as int - 55)
    else if 'a' <= c <= 'f' then Some(c as int - 87)
    else None
  }

  /** `%XY` for every byte. */
  function PercentEncode(bs: seq<Byte>): (r: string)
    ensures |r| == 3 * |bs|
    ensures forall i :: 0 <= i < |r| ==> IsFormSafe(r[i])
  {
    if bs == [] then []
    else ['%', HexDigit(bs[0] / 16), HexDigit(bs[0] % 16)] + PercentEncode(bs[1..])
  }

  function EncodeChar(c: char): (r: string)
    ensures forall i :: 0 <= i < |r| ==> IsFormSafe(r[i])
  {
    if IsUnreserved(c) then [c]
    else if c == ' ' then "+"
    else PercentEncode(Utf8(c))
  }

  /** `URLEncoder.encode(s, "UTF-8")`: the result uses only form-safe characters. */
  function Encode(s: string): (r: string)
    ensures forall i :: 0 <= i < |r| ==> IsFormSafe(r[i])
  {
    if s == [] then []
    else
      var head := EncodeChar(s[0]);
      var tail := Encode(s[1..]);
      assert forall i :: |head| <= i < |head| + |tail| ==> (head + tail)[i] == tail[i - |head|];
      head + tail
  }

  /** Form-decoding to bytes: `+` is a space, `%XY` a byte, any other character its own UTF-8 bytes. */
  function DecodeToBytes(s: string): Option<seq<Byte>>
    decreases |s|
  {
    if s == [] then Some([])
    else if s[0] == '+' then Prepend([0x20], DecodeToBytes(s[1..]))
    else if s[0] == '%' then
      if |s| >= 3 && HexValue(s[1]).Some? && HexValue(s[2]).Some? then
        Prepend([HexValue(s[1]).value * 16 + HexValue(s[2]).value], DecodeToBytes(s[3..]))
      else None
    else Prepend(Utf8(s[0]), DecodeToBytes(s[1..]))
  }

  /** Form-decoding: none when an escape is incomplete or the bytes are not UTF-8. */
  function Decode(s: string): Option<string> {
    match DecodeToBytes(s)
    case None => None
    case Some(bs) => Utf8Decode(bs)
  }

  // Round trip.

  lemma DecodeFirstUtf8(c: char, rest: seq<Byte>)
    ensures DecodeFirst(Utf8(c) + rest) == Some((c, |Utf8(c)|))
  {
    var x := c as int;
    var bs := Utf8(c) + rest;
    if x < 0x80 {
      assert bs[0] == x;
    } else if x < 0x800 {
      assert bs[0] == 0xC0 + x / 64 && bs[1] == 0x80 + x % 64;
      assert Decode2(bs[0], bs[1]) == x;
    } else if x < 0x10000 {
      assert bs[0] == 0xE0 + x / 4096 && bs[1] == 0x80 + (x / 64) % 64 && bs[2] == 0x80 + x % 64;
      Split3(x);
      assert Decode3(bs[0], bs[1], bs[2]) == x;
    } else {
      assert bs[0] == 0xF0 + x / 262144 && bs[1] == 0x80 + (x / 4096) % 64;
      assert bs[2] == 0x80 + (x / 64) % 64 && bs[3] == 0x80 + x % 64;
      Split4(x);
      assert Decode4(bs[0], bs[1], bs[2], bs[3]) == x;
    }
  }

  lemma Split3(x: int)
    requires 0 <= x
    ensures (x / 4096) * 4096 + ((x / 64) % 64) * 64 + x % 64 == x
  {
    var q := x / 64;
    assert q * 64 + x % 64 == x;
    assert (q / 64) * 64 + q % 64 == q;
    assert x / 4096 == q / 64;
  }

  lemma Split4(x: int)
    requires 0 <= x
    ensures (x / 262144) * 262144 + ((x / 4096) % 64) * 4096 + ((x / 64) % 64) * 64 + x % 64 == x
  {
    var q := x / 4096;
    Split3(x);
    assert (q / 64) * 64 + q % 64 == q;
    assert x / 262144 == q / 64;
  }

  /** UTF-8 decoding undoes UTF-8 encoding. */
  lemma {:induction false} Utf8RoundTrip(s: string)
    ensures Utf8Decode(Utf8Encode(s)) == Some(s)
  {
    if s != [] {
      var bs := Utf8Encode(s);
      DecodeFirstUtf8(s[0], Utf8Encode(s[1..]));
      assert bs[|Utf8(s[0])|..] == Utf8Encode(s[1..]);
      Utf8RoundTrip(s[1..]);
      assert [s[0]] + s[1..] == s;
    }
  }

  lemma HexRoundTrip(b: Byte)
    ensures HexValue(HexDigit(b / 16)).Some? && HexValue(HexDigit(b % 16)).Some?
    ensures HexValue(HexDigit(b / 16)).value * 16 + HexValue(HexDigit(b % 16)).value == b
  {
  }

  /** One `%XY` escape decodes to the byte it encodes. */
  lemma EscapeRoundTrip(b: Byte, tail: string)
    ensures DecodeToBytes(['%', HexDigit(b / 16), HexDigit(b % 16)] + tail) == Prepend([b], DecodeToBytes(tail))
  {
    var s := ['%', HexDigit(b / 16), HexDigit(b % 16)] + tail;
    HexRoundTrip(b);
    assert s[0] == '%' && s[1] == HexDigit(b / 16) && s[2] == HexDigit(b % 16);
    assert s[3..] == tail;
  }

  lemma {:induction false} PercentRoundTrip(bs: seq<Byte>, rest: string)
    ensures DecodeToBytes(PercentEncode(bs) + rest) == Prepend(bs, DecodeToBytes(rest))
  {
    if bs != [] {
      var escape := ['%', HexDigit(bs[0] / 16), HexDigit(bs[0] % 16)];
      var tail := PercentEncode(bs[1..]) + rest;
      assert PercentEncode(bs) + rest == escape + tail;
      EscapeRoundTrip(bs[0], tail);
      PercentRoundTrip(bs[1..], rest);
      PrependTwice([bs[0]], bs[1..], DecodeToBytes(rest));
      assert [bs[0]] + bs[1..] == bs;
    } else {
      assert PercentEncode(bs) + rest == rest;
      if DecodeToBytes(rest).Some? {
        assert bs + DecodeToBytes(rest).value == DecodeToBytes(rest).value;
      }
    }
  }

  lemma EncodeCharRoundTrip(c: char, rest: string)
    ensures DecodeToBytes(EncodeChar(c) + rest) == Prepend(Utf8(c), DecodeToBytes(rest))
  {
    var s := EncodeChar(c) + rest;
    if IsUnreserved(c) {
      assert s[0] == c && s[1..] == rest;
    } else if c == ' ' {
      assert s[0] == '+' && s[1..] == rest;
    } else {
      PercentRoundTrip(Utf8(c), rest);
    }
  }

  lemma {:induction false} DecodeToBytesRoundTrip(s: string)
    ensures DecodeToBytes(Encode(s)) == Some(Utf8Encode(s))
  {
    if s != [] {
      EncodeCharRoundTrip(s[0], Encode(s[1..]));
      DecodeToBytesRoundTrip(s[1..]);
    }
  }

  /** Form-decoding the encoded string gives back the original string. */
  lemma RoundTrip(s: string)
    ensures Decode(Encode(s)) == Some(s)
  {
    DecodeToBytesRoundTrip(s);
    Utf8RoundTrip(s);
  }

  /** Different strings have different encodings. */
  lemma EncodeInjective(a: string, b: string)
    requires Encode(a) == Encode(b)
    ensures a == b
  {
    RoundTrip(a);
    RoundTrip(b);
  }

  /** The encoded string holds none of the separators of a route or a query. */
  lemma EncodeHasNoSeparators(s: string)
    ensures forall i :: 0 <= i < |Encode(s)| ==> Encode(s)[i] !in {'/', '?', '&', '=', '#', ' '}
  {
    var r := Encode(s);
    forall i | 0 <= i < |r| ensures r[i] !in {'/', '?', '&', '=', '#', ' '} {
      assert IsFormSafe(r[i]);
    }
  }

  /** A string made of unreserved characters only is its own encoding. */
  lemma {:induction false} EncodeKeepsUnreserved(s: string)
    requires forall i :: 0 <= i < |s| ==> IsUnreserved(s[i])
    ensures Encode(s) == s
  {
    if s != [] {
      EncodeKeepsUnreserved(s[1..]);
      assert [s[0]] + s[1..] == s;
    }
  }
}
