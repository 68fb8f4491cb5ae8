/**
 * `encodeURIComponent` over Dafny strings (Unicode scalar values, so the
 * lone-surrogate `URIError` cannot arise), and a percent-decoder that reads a
 * query value back, used as the encoder's inverse.
 */
module Uri {
  import opened Wrappers

  newtype byte = x: int | 0 <= x < 256

  /** The characters `encodeURIComponent` leaves as they are. */
  predicate IsUnreserved(c: char) {
    ('A' <= c <= 'Z') || ('a' <= c <= 'z') || ('0' <= c <= '9') ||
    c == '-' || c == '_' || c == '.' || c == '!' || c == '~' || c == '*' ||
    c == '\'' || c == '(' || c == ')'
  }

  /** An upper-case hexadecimal digit, the form the encoder writes. */
  predicate IsUpperHex(c: char) {
    ('0' <= c <= '9') || ('A' <= c <= 'F')
  }

  /** The UTF-8 encoding of one Unicode scalar value. */
  function Utf8(c: char): (bs: seq<byte>)
    ensures 1 <= |bs| <= 4
    ensures |bs| == 1 <==> c as int < 0x80
    ensures |bs| == 1 ==> bs[0] as int == c as int
  {
    var v := c as int;
    if v < 0x80 then [v as byte]
    else if v < 0x800 then [(0xC0 + v / 64) as byte, (0x80 + v % 64) as byte]
    else if v < 0x10000 then
      [(0xE0 + v / 4096) as byte, (0x80 + v / 64 % 64) as byte, (0x80 + v % 64) as byte]
    else
      [(0xF0 + v / 262144) as byte, (0x80 + v / 4096 % 64) as byte,
       (0x80 + v / 64 % 64) as byte, (0x80 + v % 64) as byte]
  }

  /** The UTF-8 encoding of a string. */
  function Utf8Encode(s: string): seq<byte> {
    if s == [] then [] else Utf8(s[0]) + Utf8Encode(s[1..])
  }

  function HexDigit(n: int): (c: char)
    requires 0 <= n < 16
    ensures IsUpperHex(c)
  {
    "0123456789ABCDEF"[n]
  }

  /** The value of a hexadecimal digit of either case. */
  function HexValue(c: char): Option<int> {
    if '0' <= c <= '9' then Some(c as int - '0' as int)
    else if 'A' <= c <= 'F' then Some(c as int - 'A' as int + 10)
    else if 'a' <= c <= 'f' then Some(c as int - 'a' as int + 10)
    else None
  }

  /** `%HH` for each byte. */
  function PercentBytes(bs: seq<byte>): string {
    if bs == [] then []
    else ['%', HexDigit(bs[0] as int / 16), HexDigit(bs[0] as int % 16)] + PercentBytes(bs[1..])
  }

  /** One character: itself when unreserved, otherwise `%HH` per UTF-8 byte. */
  function EncodeChar(c: char): (r: string)
    ensures IsUnreserved(c) ==> r == [c]
    ensures !IsUnreserved(c) ==> 3 <= |r| <= 12 && r[0] == '%'
    ensures UriSafe(r)
  {
    if IsUnreserved(c) then [c]
    else
      PercentBytesSafe(Utf8(c));
      PercentBytes(Utf8(c))
  }

  /**
   * A string in which every character is unreserved or is a `%` opening an
   * escape of two upper-case hexadecimal digits.
   */
  predicate UriSafe(t: string) {
    forall i :: 0 <= i < |t| ==> IsUnreserved(t[i]) || EscapeAt(t, i)
  }

  /** `t[i..i + 3]` is `%` followed by two upper-case hexadecimal digits. */
  predicate EscapeAt(t: string, i: int) {
    0 <= i && i + 2 < |t| && t[i] == '%' && IsUpperHex(t[i + 1]) && IsUpperHex(t[i + 2])
  }

  lemma SafeConcat(a: string, b: string)
    requires UriSafe(a) && UriSafe(b)
    ensures UriSafe(a + b)
  {
    forall i | 0 <= i < |a + b| ensures IsUnreserved((a + b)[i]) || EscapeAt(a + b, i) {
      if i < |a| {
        assert (a + b)[i] == a[i];
        if !IsUnreserved(a[i]) {
          assert EscapeAt(a, i);
          assert (a + b)[i + 1] == a[i + 1] && (a + b)[i + 2] == a[i + 2];
        }
      } else {
        var j := i - |a|;
        assert (a + b)[i] == b[j];
        if !IsUnreserved(b[j]) {
          assert EscapeAt(b, j);
          assert (a + b)[i + 1] == b[j + 1] && (a + b)[i + 2] == b[j + 2];
        }
      }
    }
  }

  /** Every character of `s` is unreserved. */
  predicate AllUnreserved(s: string) {
    forall i :: 0 <= i < |s| ==> IsUnreserved(s[i])
  }

  /**
   * `encodeURIComponent(s)`. Its result never holds a character that would end
   * or split a query value (`&`, `=`, `#`, `+`, a space, ...), and every `%` in
   * it opens a well-formed escape. It leaves `s` unchanged exactly when every
   * character of `s` is unreserved, and otherwise lengthens it.
   */
  function EncodeUriComponent(s: string): (r: string)
    ensures UriSafe(r)
    ensures |r| >= |s|
    ensures AllUnreserved(s) ==> r == s
    ensures |r| == |s| <==> AllUnreserved(s)
  {
    if s == [] then []
    else
      var rest := EncodeUriComponent(s[1..]);
      SafeConcat(EncodeChar(s[0]), rest);
      assert AllUnreserved(s) <==> IsUnreserved(s[0]) && AllUnreserved(s[1..]) by {
        assert forall i :: 1 <= i < |s| ==> s[i] == s[1..][i - 1];
      }
      assert AllUnreserved(s) ==> [s[0]] + s[1..] == s;
      EncodeChar(s[0]) + rest
  }

  lemma {:induction false} PercentBytesSafe(bs: seq<byte>)
    ensures UriSafe(PercentBytes(bs)) && |PercentBytes(bs)| == 3 * |bs|
    ensures bs != [] ==> PercentBytes(bs)[0] == '%'
  {
    if bs != [] {
      PercentBytesSafe(bs[1..]);
      var head := ['%', HexDigit(bs[0] as int / 16), HexDigit(bs[0] as int % 16)];
      assert EscapeAt(head, 0) && IsUnreserved(head[1]) && IsUnreserved(head[2]);
      SafeConcat(head, PercentBytes(bs[1..]));
    }
  }

  /**
   * The bytes of a query value after percent-decoding: `%HH` is one byte, `+`
   * is a space, any other character stands for its UTF-8 bytes. A `%` not
   * followed by two hexadecimal digits makes the value malformed.
   */
  function QueryBytes(t: string): Option<seq<byte>>
    decreases |t|
  {
    if t == [] then Some([])
    else if t[0] == '%' then
      if |t| >= 3 && HexValue(t[1]).Some? && HexValue(t[2]).Some? then
        match QueryBytes(t[3..])
        case None => None
        case Some(rest) => Some([(HexValue(t[1]).value * 16 + HexValue(t[2]).value) as byte] + rest)
      else None
    else
      var head := if t[0] == '+' then [' ' as int as byte] else Utf8(t[0]);
      match QueryBytes(t[1..])
      case None => None
      case Some(rest) => Some(head + rest)
  }

  predicate IsContinuation(b: byte) {
    0x80 <= b < 0xC0
  }

  function PrependChar(c: char, r: Option<string>): Option<string> {
    match r
    case None => None
    case Some(s) => Some([c] + s)
  }

  /** Strict UTF-8 decoding: overlong forms, surrogates and truncation fail. */
  function Utf8Decode(bs: seq<byte>): Option<string>
    decreases |bs|
  {
    if bs == [] then Some([])
    else
      var b0 := bs[0] as int;
      if b0 < 0x80 then PrependChar(b0 as char, Utf8Decode(bs[1..]))
      else if 0xC2 <= b0 < 0xE0 && |bs| >= 2 && IsContinuation(bs[1]) then
        var v := (b0 - 0xC0) * 64 + (bs[1] as int - 0x80);
        PrependChar(v as char, Utf8Decode(bs[2..]))
      else if 0xE0 <= b0 < 0xF0 && |bs| >= 3 && IsContinuation(bs[1]) && IsContinuation(bs[2]) then
        var v := (b0 - 0xE0) * 4096 + (bs[1] as int - 0x80) * 64 + (bs[2] as int - 0x80);
        if v < 0x800 || (0xD800 <= v < 0xE000) then None
        else PrependChar(v as char, Utf8Decode(bs[3..]))
      else if 0xF0 <= b0 < 0xF5 && |bs| >= 4 && IsContinuation(bs[1]) && IsContinuation(bs[2]) && IsContinuation(bs[3]) then
        var v := (b0 - 0xF0) * 262144 + (bs[1] as int - 0x80) * 4096 + (bs[2] as int - 0x80) * 64 + (bs[3] as int - 0x80);
        if v < 0x10000 || v > 0x10FFFF then None
        else PrependChar(v as char, Utf8Decode(bs[4..]))
      else None
  }

  /** Reads a query value back into the string it encodes. */
  function DecodeQueryValue(t: string): Option<string> {
    match QueryBytes(t)
    case None => None
    case Some(bs) => Utf8Decode(bs)
  }

  lemma DivSplit(v: int)
    requires v >= 0
    ensures v / 4096 == v / 64 / 64
    ensures v / 262144 == v / 4096 / 64
  {
    var q, r := v / 64, v % 64;
    var q2, r2 := q / 64, q % 64;
    assert v == 4096 * q2 + (64 * r2 + r);
    assert 0 <= 64 * r2 + r < 4096;
    var q3, r3 := q2 / 64, q2 % 64;
    assert v == 262144 * q3 + (4096 * r3 + 64 * r2 + r);
  }

  /** Decoding the UTF-8 bytes of `c` in front of `rest` yields `c` in front. */
  lemma Utf8DecodeChar(c: char, rest: seq<byte>)
    ensures Utf8Decode(Utf8(c) + rest) == PrependChar(c, Utf8Decode(rest))
  {
    var v := c as int;
    var bs := Utf8(c) + rest;
    DivSplit(v);
    if v < 0x80 {
      assert bs[1..] == rest;
    } else if v < 0x800 {
      assert bs[2..] == rest;
      assert (bs[0] as int - 0xC0) * 64 + (bs[1] as int - 0x80) == v;
    } else if v < 0x10000 {
      assert bs[3..] == rest;
      assert (bs[0] as int - 0xE0) * 4096 + (bs[1] as int - 0x80) * 64 + (bs[2] as int - 0x80) == v;
    } else {
      assert bs[4..] == rest;
      assert (bs[0] as int - 0xF0) * 262144 + (bs[1] as int - 0x80) * 4096
        + (bs[2] as int - 0x80) * 64 + (bs[3] as int - 0x80) == v;
    }
  }

  lemma {:induction false} Utf8RoundTrip(s: string)
    ensures Utf8Decode(Utf8Encode(s)) == Some(s)
  {
    if s != [] {
      Utf8DecodeChar(s[0], Utf8Encode(s[1..]));
      Utf8RoundTrip(s[1..]);
      assert [s[0]] + s[1..] == s;
    }
  }

  function PrependBytes(bs: seq<byte>, r: Option<seq<byte>>): Option<seq<byte>> {
    match r
    case None => None
    case Some(rest) => Some(bs + rest)
  }

  lemma QueryBytesEscape(b: byte, w: string)
    ensures QueryBytes(['%', HexDigit(b as int / 16), HexDigit(b as int % 16)] + w)
      == PrependBytes([b], QueryBytes(w))
  {
    var u := ['%', HexDigit(b as int / 16), HexDigit(b as int % 16)] + w;
    assert u[3..] == w;
    assert HexValue(u[1]) == Some(b as int / 16) && HexValue(u[2]) == Some(b as int % 16);
  }

  lemma PrependBytesAssoc(b: byte, cs: seq<byte>, r: Option<seq<byte>>)
    ensures PrependBytes([b], PrependBytes(cs, r)) == PrependBytes([b] + cs, r)
  {
    if r.Some? {
      assert [b] + (cs + r.value) == ([b] + cs) + r.value;
    }
  }

  lemma {:induction false} QueryBytesPercent(bs: seq<byte>, t: string)
    ensures QueryBytes(PercentBytes(bs) + t) == PrependBytes(bs, QueryBytes(t))
  {
    if bs == [] {
      assert PercentBytes(bs) + t == t;
      if QueryBytes(t).Some? {
        assert bs + QueryBytes(t).value == QueryBytes(t).value;
      }
    } else {
      var head := ['%', HexDigit(bs[0] as int / 16), HexDigit(bs[0] as int % 16)];
      var w := PercentBytes(bs[1..]) + t;
      assert PercentBytes(bs) + t == head + w by {
        assert PercentBytes(bs) == head + PercentBytes(bs[1..]);
      }
      QueryBytesEscape(bs[0], w);
      QueryBytesPercent(bs[1..], t);
      PrependBytesAssoc(bs[0], bs[1..], QueryBytes(t));
      assert [bs[0]] + bs[1..] == bs;
    }
  }

  lemma QueryBytesEncodeChar(c: char, t: string)
    ensures QueryBytes(EncodeChar(c) + t) == PrependBytes(Utf8(c), QueryBytes(t))
  {
    if IsUnreserved(c) {
      assert ([c] + t)[1..] == t;
    } else {
      QueryBytesPercent(Utf8(c), t);
    }
  }

  lemma {:induction false} QueryBytesEncode(s: string)
    ensures QueryBytes(EncodeUriComponent(s)) == Some(Utf8Encode(s))
  {
    if s != [] {
      QueryBytesEncodeChar(s[0], EncodeUriComponent(s[1..]));
      QueryBytesEncode(s[1..]);
    }
  }

  /** Decoding the encoder's output gives back the original string. */
  lemma EncodeDecodeRoundTrip(s: string)
    ensures DecodeQueryValue(EncodeUriComponent(s)) == Some(s)
  {
    QueryBytesEncode(s);
    Utf8RoundTrip(s);
  }
}
