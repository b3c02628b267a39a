/** ECMAScript `encodeURIComponent` and its inverse `decodeURIComponent`:
    percent-encoding (section 2.1 of RFC 3986) of the UTF-8 bytes of every
    character outside the unreserved set A-Z a-z 0-9 - _ . ! ~ * ' ( ).
    Dafny characters are Unicode scalar values, so the URIError that a lone
    surrogate would raise cannot occur. */
module UriComponent {
  import opened Wrappers

  type byte = b: int | 0 <= b < 256

  /** The characters `encodeURIComponent` leaves as they are. */
  predicate Unreserved(c: char) {
    || 'A' <= c <= 'Z'
    || 'a' <= c <= 'z'
    || '0' <= c <= '9'
    || c == '-' || c == '_' || c == '.' || c == '!' || c == '~'
    || c == '*' || c == '\'' || c == '(' || c == ')'
  }

  predicate UpperHexDigit(c: char) {
    '0' <= c <= '9' || 'A' <= c <= 'F'
  }

  /** The characters an encoded component can contain. */
  predicate EncodedChar(c: char) {
    Unreserved(c) || c == '%' || UpperHexDigit(c)
  }

  /** The UTF-8 encoding of one scalar value. */
  function Utf8(c: char): (r: seq<byte>)
    ensures 1 <= |r| <= 4
  {
    var n := c as int;
    if n < 0x80 then [n]
    else if n < 0x800 then [0xC0 + n / 64, 0x80 + n % 64]
    else if n < 0x1_0000 then [0xE0 + n / 4096, 0x80 + n / 64 % 64, 0x80 + n % 64]
    else [0xF0 + n / 262144, 0x80 + n / 4096 % 64, 0x80 + n / 64 % 64, 0x80 + n % 64]
  }

  /** Upper-case hexadecimal digits, as `encodeURIComponent` writes them. */
  function HexDigit(d: int): (c: char)
    requires 0 <= d < 16
    ensures UpperHexDigit(c)
  {
    if d < 10 then ('0' as int + d) as char else ('A' as int + d - 10) as char
  }

  /** The value of a hexadecimal digit of either case. */
  function HexValue(c: char): (r: Option<int>)
    ensures r.Some? ==> 0 <= r.value < 16
  {
    if '0' <= c <= '9' then Some(c as int - '0' as int)
    else if 'A' <= c <= 'F' then Some(c as int - 'A' as int + 10)
    else if 'a' <= c <= 'f' then Some(c as int - 'a' as int + 10)
    else None
  }

  function PercentByte(b: byte): string {
    ['%', HexDigit(b / 16), HexDigit(b % 16)]
  }

  function PercentBytes(bs: seq<byte>): (r: string)
    ensures |r| == 3 * |bs|
  {
    if bs == [] then [] else PercentByte(bs[0]) + PercentBytes(bs[1..])
  }

  function EncodeChar(c: char): string {
    if Unreserved(c) then [c] else PercentBytes(Utf8(c))
  }

  /** `encodeURIComponent(s)`. */
  function Encode(s: string): string {
    if s == [] then [] else EncodeChar(s[0]) + Encode(s[1..])
  }

  lemma {:induction false} PercentBytesEncoded(bs: seq<byte>)
    ensures forall k :: 0 <= k < |PercentBytes(bs)| ==> EncodedChar(PercentBytes(bs)[k])
  {
    if bs != [] {
      PercentBytesEncoded(bs[1..]);
    }
  }

  /** The encoder's output holds only unreserved characters, `%` and
      upper-case hexadecimal digits, so it never contains a delimiter that
      would end a URI component, such as `&`, `=`, `?` or `#`. */
  lemma {:induction false} EncodeAlphabet(s: string)
    ensures forall k :: 0 <= k < |Encode(s)| ==> EncodedChar(Encode(s)[k])
  {
    if s != [] {
      EncodeAlphabet(s[1..]);
      if !Unreserved(s[0]) {
        PercentBytesEncoded(Utf8(s[0]));
      }
    }
  }

  /** The byte written as `%XX` at position `i`, if there is one. */
  function ByteAt(s: string, i: nat): Option<byte> {
    if i + 3 <= |s| && s[i] == '%' then
      match (HexValue(s[i + 1]), HexValue(s[i + 2]))
      case (Some(hi), Some(lo)) => Some(hi * 16 + lo)
      case _ => None
    else None
  }

  /** A continuation byte `10xxxxxx` written at position `i`: its six bits. */
  function ContinuationAt(s: string, i: nat): Option<int> {
    match ByteAt(s, i)
    case Some(b) => if 0x80 <= b < 0xC0 then Some(b - 0x80) else None
    case None => None
  }

  predicate IsScalar(v: int) {
    0 <= v < 0xD800 || 0xE000 <= v < 0x11_0000
  }

  /** One character written as one to four `%XX` escapes holding its UTF-8
      encoding, with the number of characters consumed. Overlong forms,
      surrogates and values past U+10FFFF are rejected, as
      `decodeURIComponent` rejects them with a URIError. */
  function DecodeEscape(s: string): (r: Option<(char, nat)>)
    ensures r.Some? ==> 3 <= r.value.1 <= |s|
  {
    var b0 :- ByteAt(s, 0);
    if b0 < 0x80 then Some((b0 as char, 3))
    else if 0xC0 <= b0 < 0xE0 then
      var c1 :- ContinuationAt(s, 3);
      var v := (b0 - 0xC0) * 64 + c1;
      if 0x80 <= v then Some((v as char, 6)) else None
    else if 0xE0 <= b0 < 0xF0 then
      var c1 :- ContinuationAt(s, 3);
      var c2 :- ContinuationAt(s, 6);
      var v := (b0 - 0xE0) * 4096 + c1 * 64 + c2;
      if 0x800 <= v && IsScalar(v) then Some((v as char, 9)) else None
    else if 0xF0 <= b0 < 0xF8 then
      var c1 :- ContinuationAt(s, 3);
      var c2 :- ContinuationAt(s, 6);
      var c3 :- ContinuationAt(s, 9);
      var v := (b0 - 0xF0) * 262144 + c1 * 4096 + c2 * 64 + c3;
      if 0x1_0000 <= v && IsScalar(v) then Some((v as char, 12)) else None
    else None
  }

  function Prepend(c: char, r: Option<string>): Option<string> {
    match r
    case Some(t) => Some([c] + t)
    case None => None
  }

  /** `decodeURIComponent(s)`; None where it would throw a URIError. */
  function Decode(s: string): Option<string>
    decreases |s|
  {
    if s == [] then Some([])
    else if s[0] != '%' then Prepend(s[0], Decode(s[1..]))
    else
      match DecodeEscape(s)
      case Some((c, n)) => Prepend(c, Decode(s[n..]))
      case None => None
  }

  lemma HexRoundTrip(d: int)
    requires 0 <= d < 16
    ensures HexValue(HexDigit(d)) == Some(d)
  {
  }

  lemma PercentByteRead(b: byte, t: string)
    ensures ByteAt(PercentByte(b) + t, 0) == Some(b)
  {
    HexRoundTrip(b / 16);
    HexRoundTrip(b % 16);
  }

  /** Each byte of a run of escapes can be read back at its position. */
  lemma {:induction false} PercentBytesRead(bs: seq<byte>, t: string, j: nat)
    requires j < |bs|
    ensures ByteAt(PercentBytes(bs) + t, 3 * j) == Some(bs[j])
  {
    var s := PercentBytes(bs) + t;
    var rest := PercentBytes(bs[1..]) + t;
    assert s == PercentByte(bs[0]) + rest;
    if j == 0 {
      PercentByteRead(bs[0], rest);
    } else {
      PercentBytesRead(bs[1..], t, j - 1);
      assert s[3 * j..] == rest[3 * (j - 1)..];
      assert ByteAt(s, 3 * j) == ByteAt(rest, 3 * (j - 1));
    }
  }

  /** A character that is not unreserved is read back from its escapes. */
  lemma DecodeEscapeOfChar(c: char, t: string)
    requires !Unreserved(c)
    ensures DecodeEscape(PercentBytes(Utf8(c)) + t) == Some((c, |PercentBytes(Utf8(c))|))
  {
    var n := c as int;
    if n < 0x80 {
      PercentBytesRead(Utf8(c), t, 0);
    } else if n < 0x800 {
      DecodeTwo(c, t);
    } else if n < 0x1_0000 {
      DecodeThree(c, t);
    } else {
      DecodeFour(c, t);
    }
  }

  lemma DecodeTwo(c: char, t: string)
    requires 0x80 <= c as int < 0x800
    ensures DecodeEscape(PercentBytes(Utf8(c)) + t) == Some((c, 6))
  {
    var n := c as int;
    var bs := Utf8(c);
    var s := PercentBytes(bs) + t;
    PercentBytesRead(bs, t, 0);
    PercentBytesRead(bs, t, 1);
    assert ContinuationAt(s, 3) == Some(n % 64);
    assert (n / 64) * 64 + n % 64 == n;
  }

  lemma DecodeThree(c: char, t: string)
    requires 0x800 <= c as int < 0x1_0000
    ensures DecodeEscape(PercentBytes(Utf8(c)) + t) == Some((c, 9))
  {
    var n := c as int;
    var bs := Utf8(c);
    var s := PercentBytes(bs) + t;
    PercentBytesRead(bs, t, 0);
    PercentBytesRead(bs, t, 1);
    PercentBytesRead(bs, t, 2);
    assert ContinuationAt(s, 3) == Some(n / 64 % 64);
    assert ContinuationAt(s, 6) == Some(n % 64);
    ThreeByteValue(n);
  }

  lemma DecodeFour(c: char, t: string)
    requires 0x1_0000 <= c as int
    ensures DecodeEscape(PercentBytes(Utf8(c)) + t) == Some((c, 12))
  {
    var n := c as int;
    var bs := Utf8(c);
    var s := PercentBytes(bs) + t;
    PercentBytesRead(bs, t, 0);
    PercentBytesRead(bs, t, 1);
    PercentBytesRead(bs, t, 2);
    PercentBytesRead(bs, t, 3);
    assert ContinuationAt(s, 3) == Some(n / 4096 % 64);
    assert ContinuationAt(s, 6) == Some(n / 64 % 64);
    assert ContinuationAt(s, 9) == Some(n % 64);
    FourByteValue(n);
  }

  lemma ThreeByteValue(n: int)
    requires 0 <= n
    ensures (n / 4096) * 4096 + (n / 64 % 64) * 64 + n % 64 == n
  {
    assert n / 4096 == (n / 64) / 64;
  }

  lemma FourByteValue(n: int)
    requires 0 <= n
    ensures (n / 262144) * 262144 + (n / 4096 % 64) * 4096 + (n / 64 % 64) * 64 + n % 64 == n
  {
    assert n / 262144 == (n / 4096) / 64;
    assert n / 4096 == (n / 64) / 64;
  }

  /** Decoding a character's encoding followed by more text decodes that text
      and puts the character in front. */
  lemma DecodeEncodeChar(c: char, t: string)
    ensures Decode(EncodeChar(c) + t) == Prepend(c, Decode(t))
  {
    var s := EncodeChar(c) + t;
    if Unreserved(c) {
      assert s[1..] == t;
    } else {
      var e := PercentBytes(Utf8(c));
      DecodeEscapeOfChar(c, t);
      assert s[0] == '%';
      assert s[|e|..] == t;
    }
  }

  /** `decodeURIComponent(encodeURIComponent(s)) == s` for every string. */
  lemma {:induction false} DecodeEncode(s: string)
    ensures Decode(Encode(s)) == Some(s)
  {
    if s != [] {
      DecodeEncode(s[1..]);
      DecodeEncodeChar(s[0], Encode(s[1..]));
      assert [s[0]] + s[1..] == s;
    }
  }

  /** Text without `%` decodes to itself. */
  lemma {:induction false} DecodePlain(s: string)
    requires '%' !in s
    ensures Decode(s) == Some(s)
  {
    if s != [] {
      DecodePlain(s[1..]);
      assert [s[0]] + s[1..] == s;
    }
  }

  /** Unreserved text is left as it is by the encoder. */
  lemma {:induction false} EncodeUnreserved(s: string)
    requires forall k :: 0 <= k < |s| ==> Unreserved(s[k])
    ensures Encode(s) == s
  {
    if s != [] {
      EncodeUnreserved(s[1..]);
      assert [s[0]] + s[1..] == s;
    }
  }

  /** Encoding works character by character: it distributes over `+`. */
  lemma {:induction false} EncodeAppend(a: string, b: string)
    ensures Encode(a + b) == Encode(a) + Encode(b)
  {
    if a == [] {
      assert a + b == b;
    } else {
      EncodeAppend(a[1..], b);
      EncodeCons(a[0], a[1..], b);
      assert a == [a[0]] + a[1..];
    }
  }

  lemma EncodeCons(c: char, t: string, b: string)
    requires Encode(t + b) == Encode(t) + Encode(b)
    ensures Encode([c] + t + b) == Encode([c] + t) + Encode(b)
  {
    assert ([c] + t + b)[1..] == t + b;
    assert ([c] + t)[1..] == t;
  }
}
