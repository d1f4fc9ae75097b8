/**
 * `encodeURIComponent` (ECMA-262, section 19.2.6.4) and, as its inverse,
 * `decodeURIComponent` (section 19.2.6.2). A character in the unreserved set
 * `A-Z a-z 0-9 - _ . ! ~ * ' ( )` is kept; every other character is written
 * as the `%XX` triples (upper-case hexadecimal, RFC 3986 section 2.1) of its
 * UTF-8 bytes (RFC 3629). Characters are Unicode scalar values, so the lone
 * surrogates for which the JavaScript function throws cannot occur.
 */
module UriComponent {
  import opened Wrappers
  import opened Url

  type Byte = b: int | 0 <= b < 256

  /** The characters `encodeURIComponent` leaves as they are. */
  predicate IsUnreserved(c: char) {
    ('A' <= c <= 'Z') || ('a' <= c <= 'z') || ('0' <= c <= '9') || c in "-_.!~*'()"
  }

  predicate IsUpperHexDigit(c: char) {
    ('0' <= c <= '9') || ('A' <= c <= 'F')
  }

  /** The character an encoded string may contain. */
  predicate IsEncodedChar(c: char) {
    IsUnreserved(c) || c == '%' || IsUpperHexDigit(c)
  }

  function HexDigit(n: nat): (c: char)
    requires n < 16
    ensures IsUpperHexDigit(c)
  {
    if n < 10 then ('0' as int + n) as char else ('A' as int + n - 10) as char
  }

  /** The value of a hexadecimal digit of either case. */
  function HexValue(c: char): (r: Option<nat>)
    ensures r.Some? ==> r.value < 16
  {
    if '0' <= c <= '9' then Some(c as int - '0' as int)
    else if 'A' <= c <= 'F' then Some(c as int - 'A' as int + 10)
    else if 'a' <= c <= 'f' then Some(c as int - 'a' as int + 10)
    else None
  }

  lemma HexValueOfDigit(n: nat)
    requires n < 16
    ensures HexValue(HexDigit(n)) == Some(n)
  {
  }

  /** The UTF-8 encoding of one scalar value: 1, 2, 3 or 4 bytes. */
  function Utf8(c: char): seq<Byte> {
    var v := c as int;
    var q1 := v / 64;
    var q2 := q1 / 64;
    var q3 := q2 / 64;
    if v < 0x80 then [v]
    else if v < 0x800 then [0xC0 + q1, 0x80 + v % 64]
    else if v < 0x10000 then [0xE0 + q2, 0x80 + q1 % 64, 0x80 + v % 64]
    else [0xF0 + q3, 0x80 + q2 % 64, 0x80 + q1 % 64, 0x80 + v % 64]
  }

  /** The `%XX` triples of a byte sequence. */
  function PercentBytes(bs: seq<Byte>): (r: string)
    ensures |r| == 3 * |bs|
    ensures forall k :: 0 <= k < |r| ==> r[k] == '%' || IsUpperHexDigit(r[k])
    decreases |bs|
  {
    if bs == [] then ""
    else ['%', HexDigit(bs[0] / 16), HexDigit(bs[0] % 16)] + PercentBytes(bs[1..])
  }

  function EncodeChar(c: char): string {
    if IsUnreserved(c) then [c] else PercentBytes(Utf8(c))
  }

  /** `encodeURIComponent(s)`. */
  function EncodeURIComponent(s: string): (r: string)
    ensures forall k :: 0 <= k < |r| ==> IsEncodedChar(r[k])
    decreases |s|
  {
    if s == [] then "" else EncodeChar(s[0]) + EncodeURIComponent(s[1..])
  }

  /**
   * An encoded string holds none of the URL delimiters `/ ? # & =`, so it stays
   * inside one path segment, except that `.` and `..` come out unchanged and
   * the URL parser then reads them as dot segments (see `EncodedDotSegment`).
   */
  lemma EncodedHasNoDelimiters(s: string)
    ensures var e := EncodeURIComponent(s);
      '/' !in e && '?' !in e && '#' !in e && '&' !in e && '=' !in e
  {
    var e := EncodeURIComponent(s);
    forall k | 0 <= k < |e|
      ensures e[k] != '/' && e[k] != '?' && e[k] != '#' && e[k] != '&' && e[k] != '='
    {
      EncodedCharIsNoDelimiter(e[k]);
    }
  }

  lemma EncodedCharIsNoDelimiter(c: char)
    requires IsEncodedChar(c)
    ensures c != '/' && c != '?' && c != '#' && c != '&' && c != '='
  {
  }

  /** `.` is unreserved, so the two dot segments pass through the encoder unchanged. */
  lemma DotSegmentsEncodeUnchanged()
    ensures EncodeURIComponent(".") == "." && EncodeURIComponent("..") == ".."
  {
    assert "."[1..] == "" && ".."[1..] == ".";
  }

  /** Only the empty string encodes to the empty string. */
  lemma EncodeEmpty(s: string)
    ensures EncodeURIComponent(s) == "" <==> s == ""
  {
    if s != [] {
      assert |EncodeChar(s[0])| > 0;
    }
  }

  /** An encoding that opens with `.` comes from an input that opens with `.`. */
  lemma EncodeOpensWithDot(s: string)
    requires |EncodeURIComponent(s)| > 0 && EncodeURIComponent(s)[0] == '.'
    ensures |s| > 0 && s[0] == '.'
    ensures EncodeURIComponent(s) == "." + EncodeURIComponent(s[1..])
  {
    assert s != [];
  }

  /** The encoding is `.` or `..` exactly when the input is: `.` is never escaped. */
  lemma EncodedPlainDots(s: string)
    ensures var e := EncodeURIComponent(s);
      (e == "." || e == "..") <==> (s == "." || s == "..")
  {
    var e := EncodeURIComponent(s);
    DotSegmentsEncodeUnchanged();
    if e == "." || e == ".." {
      EncodeOpensWithDot(s);
      var t := s[1..];
      if e == "." {
        EncodeEmpty(t);
        assert s == [s[0]] + t;
      } else {
        assert EncodeURIComponent(t) == ".";
        EncodeOpensWithDot(t);
        EncodeEmpty(t[1..]);
        assert s == [s[0]] + [t[0]] + t[1..];
      }
    }
  }

  /** The escaped form of a byte sequence opens with the triple of its first byte. */
  lemma PercentBytesOpening(bs: seq<Byte>, rest: string)
    requires |bs| > 0
    ensures var e := PercentBytes(bs) + rest;
      |e| >= 3 && e[0] == '%' && e[1] == HexDigit(bs[0] / 16) && e[2] == HexDigit(bs[0] % 16)
  {
    assert PercentBytes(bs) == ['%', HexDigit(bs[0] / 16), HexDigit(bs[0] % 16)] + PercentBytes(bs[1..]);
  }

  /** An encoding that opens with `%` opens with the first byte triple of an escaped first character. */
  lemma EscapedOpening(s: string)
    requires |EncodeURIComponent(s)| > 0 && EncodeURIComponent(s)[0] == '%'
    ensures s != [] && !IsUnreserved(s[0])
    ensures var e, b := EncodeURIComponent(s), Utf8(s[0])[0];
      |e| >= 3 && e[1] == HexDigit(b / 16) && e[2] == HexDigit(b % 16)
  {
    assert s != [];
    var rest := EncodeURIComponent(s[1..]);
    assert EncodeURIComponent(s) == EncodeChar(s[0]) + rest;
    PercentBytesOpening(Utf8(s[0]), rest);
  }

  /**
   * No encoding opens with `%2E` or `%2e`: the only character whose UTF-8 lead
   * byte is 0x2E is `.` itself, which is unreserved, and the hexadecimal digits
   * written are upper-case.
   */
  lemma NoEscapedDotOpening(s: string)
    ensures var e := EncodeURIComponent(s);
      !(|e| >= 3 && IsEscapedDot(e[..3]))
  {
    var e := EncodeURIComponent(s);
    if |e| >= 3 && e[0] == '%' {
      EscapedOpening(s);
      var c := s[0];
      var b := Utf8(c)[0];
      HexValueOfDigit(b / 16);
      HexValueOfDigit(b % 16);
      Utf8WellFormed(c);
      assert e[1] == '2' && e[2] == 'E' ==> b == 0x2E;
      assert b == 0x2E ==> Utf8(c) == [0x2E];
      assert Utf8(c) == [0x2E] ==> c == '.';
      assert e[2] != 'e';
    }
  }

  /**
   * The encoding is a dot segment, in the URL Standard's sense, exactly when
   * the input is `.` or `..`: the `%2e` spellings never appear in an encoding.
   */
  lemma EncodedDotSegment(s: string)
    ensures IsDotSegment(EncodeURIComponent(s)) <==> (s == "." || s == "..")
  {
    var e := EncodeURIComponent(s);
    EncodedPlainDots(s);
    NoEscapedDotOpening(s);
    if |e| == 4 && e[0] == '.' {
      EncodeOpensWithDot(s);
      NoEscapedDotOpening(s[1..]);
      assert EncodeURIComponent(s[1..]) == e[1..];
      assert e[1..][..3] == e[1..];
    }
  }

  /** Reads `count` consecutive `%HH` triples from the front of `e`. */
  function ReadBytes(e: string, count: nat): (r: Option<(seq<Byte>, string)>)
    ensures r.Some? ==> |r.value.0| == count && |r.value.1| == |e| - 3 * count
    decreases count
  {
    if count == 0 then Some(([], e))
    else if |e| < 3 || e[0] != '%' then None
    else
      match (HexValue(e[1]), HexValue(e[2]))
      case (Some(hi), Some(lo)) =>
        (match ReadBytes(e[3..], count - 1)
         case None => None
         case Some((bs, rest)) => Some(([hi * 16 + lo] + bs, rest)))
      case _ => None
  }

  /** The length of the UTF-8 sequence a lead byte opens, or 0 for a byte that opens none. */
  function SequenceLength(lead: Byte): nat {
    if lead < 0x80 then 1
    else if 0xC2 <= lead < 0xE0 then 2
    else if 0xE0 <= lead < 0xF0 then 3
    else if 0xF0 <= lead < 0xF5 then 4
    else 0
  }

  predicate IsContinuation(b: Byte) {
    0x80 <= b < 0xC0
  }

  /** The smallest scalar value that needs `n` bytes; a smaller one is an overlong encoding. */
  function MinScalar(n: nat): int {
    if n <= 1 then 0 else if n == 2 then 0x80 else if n == 3 then 0x800 else 0x10000
  }

  /** The scalar value a complete UTF-8 sequence stands for, if it is well formed. */
  function ScalarOf(bs: seq<Byte>): Option<char>
    requires 1 <= |bs| <= 4
  {
    if |bs| == 1 then
      if bs[0] < 0x80 then Some(bs[0] as char) else None
    else if !(forall k :: 1 <= k < |bs| ==> IsContinuation(bs[k])) then None
    else
      var v :=
        if |bs| == 2 then (bs[0] as int - 0xC0) * 64 + (bs[1] - 0x80)
        else if |bs| == 3 then ((bs[0] as int - 0xE0) * 64 + (bs[1] - 0x80)) * 64 + (bs[2] - 0x80)
        else (((bs[0] as int - 0xF0) * 64 + (bs[1] - 0x80)) * 64 + (bs[2] - 0x80)) * 64 + (bs[3] - 0x80);
      if MinScalar(|bs|) <= v < 0x110000 && !(0xD800 <= v < 0xE000) then Some(v as char) else None
  }

  function Prepend(c: char, t: Option<string>): Option<string> {
    match t
    case None => None
    case Some(u) => Some([c] + u)
  }

  /** `decodeURIComponent(e)`; `None` where the JavaScript function throws a URIError. */
  function DecodeURIComponent(e: string): Option<string>
    decreases |e|
  {
    if e == [] then Some("")
    else if e[0] != '%' then Prepend(e[0], DecodeURIComponent(e[1..]))
    else
      match ReadBytes(e, 1)
      case None => None
      case Some((lead, _)) =>
        var n := SequenceLength(lead[0]);
        if n == 0 then None
        else
          match ReadBytes(e, n)
          case None => None
          case Some((bs, rest)) =>
            match ScalarOf(bs)
            case None => None
            case Some(c) => Prepend(c, DecodeURIComponent(rest))
  }

  lemma {:induction false} ReadPercentBytes(bs: seq<Byte>, rest: string)
    ensures ReadBytes(PercentBytes(bs) + rest, |bs|) == Some((bs, rest))
    decreases |bs|
  {
    if bs != [] {
      var b := bs[0];
      var hi, lo := b / 16, b % 16;
      var e := PercentBytes(bs) + rest;
      var tail := PercentBytes(bs[1..]) + rest;
      assert e == ['%', HexDigit(hi), HexDigit(lo)] + tail;
      HexValueOfDigit(hi);
      HexValueOfDigit(lo);
      assert e[3..] == tail;
      ReadPercentBytes(bs[1..], rest);
      assert ReadBytes(tail, |bs| - 1) == Some((bs[1..], rest));
      assert hi * 16 + lo == b;
      assert [b] + bs[1..] == bs;
    } else {
      assert PercentBytes(bs) + rest == rest;
    }
  }

  /** UTF-8 opens with a lead byte announcing its own length and decodes back to its character. */
  lemma Utf8WellFormed(c: char)
    ensures SequenceLength(Utf8(c)[0]) == |Utf8(c)|
    ensures ScalarOf(Utf8(c)) == Some(c)
  {
    var v := c as int;
    var q1 := v / 64;
    var q2 := q1 / 64;
    assert v == q1 * 64 + v % 64;
    assert q1 == q2 * 64 + q1 % 64;
  }

  lemma DecodeEncodeChar(c: char, rest: string)
    ensures DecodeURIComponent(EncodeChar(c) + rest) == Prepend(c, DecodeURIComponent(rest))
  {
    if IsUnreserved(c) {
      assert ([c] + rest)[1..] == rest;
    } else {
      DecodeEncodeEscaped(c, rest);
    }
  }

  lemma DecodeEncodeEscaped(c: char, rest: string)
    requires !IsUnreserved(c)
    ensures DecodeURIComponent(PercentBytes(Utf8(c)) + rest) == Prepend(c, DecodeURIComponent(rest))
  {
    Utf8WellFormed(c);
    DecodeEscapedBytes(Utf8(c), rest, c);
  }

  /** The escaped form of a well-formed UTF-8 sequence decodes to its scalar value. */
  lemma DecodeEscapedBytes(bs: seq<Byte>, rest: string, c: char)
    requires 1 <= |bs| <= 4 && SequenceLength(bs[0]) == |bs|
    requires ScalarOf(bs) == Some(c)
    ensures DecodeURIComponent(PercentBytes(bs) + rest) == Prepend(c, DecodeURIComponent(rest))
  {
    var e := PercentBytes(bs) + rest;
    var tail := PercentBytes(bs[1..]) + rest;
    ReadPercentBytes(bs, rest);
    ReadPercentBytes([bs[0]], tail);
    PercentBytesFirst(bs);
    assert e == PercentBytes([bs[0]]) + tail;
    DecodeEscapeStep(e, bs, tail, rest, c);
  }

  lemma PercentBytesFirst(bs: seq<Byte>)
    requires |bs| > 0
    ensures PercentBytes(bs) == PercentBytes([bs[0]]) + PercentBytes(bs[1..])
  {
    var t := ['%', HexDigit(bs[0] / 16), HexDigit(bs[0] % 16)];
    assert [bs[0]][1..] == [];
    assert PercentBytes([bs[0]]) == t + PercentBytes([]);
    assert t + "" == t;
    assert PercentBytes(bs) == t + PercentBytes(bs[1..]);
  }

  /** One step of the decoder over an escaped UTF-8 sequence. */
  lemma DecodeEscapeStep(e: string, bs: seq<Byte>, tail: string, rest: string, c: char)
    requires |e| > 0 && e[0] == '%'
    requires 1 <= |bs| <= 4 && SequenceLength(bs[0]) == |bs|
    requires ReadBytes(e, 1) == Some(([bs[0]], tail))
    requires ReadBytes(e, |bs|) == Some((bs, rest))
    requires ScalarOf(bs) == Some(c)
    ensures DecodeURIComponent(e) == Prepend(c, DecodeURIComponent(rest))
  {
  }

  /** `decodeURIComponent(encodeURIComponent(s)) == s`: no two strings encode alike. */
  lemma {:induction false} DecodeEncode(s: string)
    ensures DecodeURIComponent(EncodeURIComponent(s)) == Some(s)
    decreases |s|
  {
    if s != [] {
      DecodeEncode(s[1..]);
      DecodeEncodeChar(s[0], EncodeURIComponent(s[1..]));
      assert [s[0]] + s[1..] == s;
    }
  }
}
