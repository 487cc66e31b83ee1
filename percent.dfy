/**
 * Percent-decoding of the request's link, as `urlencoding::decode` does it.
 *
 * The link's UTF-8 bytes are scanned left to right; a `%` followed by two
 * hexadecimal digits (either case) stands for the byte they spell
 * (section 2.1 of RFC 3986), every other byte stands for itself, and the
 * resulting bytes must be UTF-8 again.  A `%` without two hexadecimal digits
 * after it, or decoded bytes that are not UTF-8, make decoding fail.
 */
module Percent {
  import opened Wrappers
  import opened Utf8

  datatype DecodeError = MalformedEscape | InvalidUtf8

  const PERCENT: byte := 0x25

  predicate IsHexDigit(b: byte) {
    0x30 <= b <= 0x39 || 0x41 <= b <= 0x46 || 0x61 <= b <= 0x66
  }

  function HexValue(b: byte): (v: int)
    requires IsHexDigit(b)
    ensures 0 <= v < 16
  {
    if b <= 0x39 then b as int - 0x30
    else if b <= 0x46 then b as int - 0x41 + 10
    else b as int - 0x61 + 10
  }

  /** The decoded bytes of a byte string, or MalformedEscape at the first bad `%`. */
  function DecodeBytes(bs: seq<byte>): (r: Result<seq<byte>, DecodeError>)
    ensures r.Err? ==> r.error == MalformedEscape
    decreases |bs|
  {
    if bs == [] then Ok([])
    else if bs[0] == PERCENT then
      if 3 <= |bs| && IsHexDigit(bs[1]) && IsHexDigit(bs[2]) then
        PrefixOk([(HexValue(bs[1]) * 16 + HexValue(bs[2])) as byte], DecodeBytes(bs[3..]))
      else Err(MalformedEscape)
    else
      PrefixOk([bs[0]], DecodeBytes(bs[1..]))
  }

  /** `urlencoding::decode`: percent-decode the bytes of `s`, then read them back as UTF-8. */
  function Decode(s: string): (r: Result<string, DecodeError>)
    ensures r.Ok? ==> DecodeBytes(ToUtf8(s)).Ok? && ToUtf8(r.value) == DecodeBytes(ToUtf8(s)).value
  {
    match DecodeBytes(ToUtf8(s))
    case Err(e) => Err(e)
    case Ok(bytes) =>
      match FromUtf8(bytes)
      case None => Err(InvalidUtf8)
      case Some(t) => ToFromUtf8(bytes); Ok(t)
  }

  /** A successful result with `prefix` in front; failures pass through. */
  function PrefixOk<T>(prefix: seq<T>, r: Result<seq<T>, DecodeError>): (res: Result<seq<T>, DecodeError>) {
    match r
    case Err(e) => Err(e)
    case Ok(t) => Ok(prefix + t)
  }

  /** Every `%` is followed by two hexadecimal digits. */
  predicate WellFormedEscapes(bs: seq<byte>) {
    forall i :: 0 <= i < |bs| && bs[i] == PERCENT ==>
      i + 2 < |bs| && IsHexDigit(bs[i + 1]) && IsHexDigit(bs[i + 2])
  }

  function PercentCount(bs: seq<byte>): (n: nat) {
    if bs == [] then 0 else (if bs[0] == PERCENT then 1 else 0) + PercentCount(bs[1..])
  }

  // ---------------------------------------------------------------------
  // An encoder, the inverse the decoder is checked against.

  /** The unreserved characters of section 2.3 of RFC 3986: ALPHA, DIGIT, `-`, `.`, `_`, `~`. */
  predicate IsUnreserved(b: byte) {
    0x41 <= b <= 0x5A || 0x61 <= b <= 0x7A || 0x30 <= b <= 0x39
    || b == 0x2D || b == 0x2E || b == 0x5F || b == 0x7E
  }

  /** The upper-case hexadecimal digit of a value below 16. */
  function HexDigit(v: int): (b: byte)
    requires 0 <= v < 16
  {
    if v < 10 then (0x30 + v) as byte else (0x41 + v - 10) as byte
  }

  /** Percent-encode every byte that is not unreserved, with upper-case digits. */
  function EscapeBytes(bs: seq<byte>): (e: seq<byte>) {
    if bs == [] then []
    else
      (if IsUnreserved(bs[0]) then [bs[0]]
       else [PERCENT, HexDigit(bs[0] as int / 16), HexDigit(bs[0] as int % 16)])
      + EscapeBytes(bs[1..])
  }

  /** A string of bytes below 0x80, read as ASCII characters. */
  function AsciiString(bs: seq<byte>): (s: string)
    requires forall k :: 0 <= k < |bs| ==> bs[k] < 0x80
  {
    if bs == [] then [] else [bs[0] as int as char] + AsciiString(bs[1..])
  }

  /** The percent-encoded form of a string: the escaped bytes of its UTF-8 encoding. */
  function Escape(s: string): (e: string) {
    EscapeIsAscii(ToUtf8(s));
    AsciiString(EscapeBytes(ToUtf8(s)))
  }

  // ---------------------------------------------------------------------
  // Properties of the byte-level decoder.

  /** Decoding succeeds exactly when every `%` starts a well-formed escape. */
  lemma {:induction false} DecodeBytesOkIff(bs: seq<byte>)
    ensures DecodeBytes(bs).Ok? <==> WellFormedEscapes(bs)
    decreases |bs|
  {
    if bs == [] {
    } else if bs[0] == PERCENT {
      if 3 <= |bs| && IsHexDigit(bs[1]) && IsHexDigit(bs[2]) {
        var rest := bs[3..];
        DecodeBytesOkIff(rest);
        if WellFormedEscapes(rest) {
          forall i | 0 <= i < |bs| && bs[i] == PERCENT
            ensures i + 2 < |bs| && IsHexDigit(bs[i + 1]) && IsHexDigit(bs[i + 2])
          {
            if i >= 3 {
              assert rest[i - 3] == PERCENT;
            }
          }
        }
        if WellFormedEscapes(bs) {
          forall i | 0 <= i < |rest| && rest[i] == PERCENT
            ensures i + 2 < |rest| && IsHexDigit(rest[i + 1]) && IsHexDigit(rest[i + 2])
          {
            assert bs[i + 3] == PERCENT;
          }
        }
      } else {
        assert !WellFormedEscapes(bs) by {
          assert bs[0] == PERCENT;
        }
      }
    } else {
      var rest := bs[1..];
      DecodeBytesOkIff(rest);
      if WellFormedEscapes(rest) {
        forall i | 0 <= i < |bs| && bs[i] == PERCENT
          ensures i + 2 < |bs| && IsHexDigit(bs[i + 1]) && IsHexDigit(bs[i + 2])
        {
          assert rest[i - 1] == PERCENT;
        }
      }
      if WellFormedEscapes(bs) {
        forall i | 0 <= i < |rest| && rest[i] == PERCENT
          ensures i + 2 < |rest| && IsHexDigit(rest[i + 1]) && IsHexDigit(rest[i + 2])
        {
          assert bs[i + 1] == PERCENT;
        }
      }
    }
  }

  /** Each escape shrinks three bytes to one; every other byte is kept. */
  lemma {:induction false} DecodeBytesLength(bs: seq<byte>)
    requires DecodeBytes(bs).Ok?
    ensures |DecodeBytes(bs).value| + 2 * PercentCount(bs) == |bs|
    decreases |bs|
  {
    if bs == [] {
    } else if bs[0] == PERCENT {
      DecodeBytesLength(bs[3..]);
      assert bs[1..][0] == bs[1] && bs[1..][1..] == bs[2..];
      assert bs[2..][0] == bs[2] && bs[2..][1..] == bs[3..];
      assert PercentCount(bs[2..]) == PercentCount(bs[3..]);
      assert PercentCount(bs[1..]) == PercentCount(bs[2..]);
    } else {
      DecodeBytesLength(bs[1..]);
    }
  }

  /** Bytes without a `%` decode to themselves. */
  lemma {:induction false} DecodeBytesPlain(bs: seq<byte>)
    requires PERCENT !in bs
    ensures DecodeBytes(bs) == Ok(bs)
    decreases |bs|
  {
    if bs != [] {
      assert bs[0] in bs;
      assert forall k :: 0 <= k < |bs[1..]| ==> bs[1..][k] in bs;
      DecodeBytesPlain(bs[1..]);
      assert [bs[0]] + bs[1..] == bs;
    }
  }

  /** Decoding distributes over a well-formed first part. */
  lemma {:induction false} DecodeBytesAppend(a: seq<byte>, b: seq<byte>)
    requires DecodeBytes(a).Ok?
    ensures DecodeBytes(a + b) == PrefixOk(DecodeBytes(a).value, DecodeBytes(b))
    decreases |a|
  {
    if a == [] {
      assert a + b == b;
      if DecodeBytes(b).Ok? {
        assert [] + DecodeBytes(b).value == DecodeBytes(b).value;
      }
    } else {
      var n := if a[0] == PERCENT then 3 else 1;
      assert (a + b)[0] == a[0];
      if n == 3 {
        assert (a + b)[1] == a[1] && (a + b)[2] == a[2];
      }
      assert (a + b)[n..] == a[n..] + b;
      DecodeBytesAppend(a[n..], b);
      if DecodeBytes(b).Ok? {
        var h := DecodeBytes(a).value[..1];
        assert DecodeBytes(a).value == h + DecodeBytes(a[n..]).value;
        assert h + (DecodeBytes(a[n..]).value + DecodeBytes(b).value)
            == DecodeBytes(a).value + DecodeBytes(b).value;
      }
    }
  }

  // ---------------------------------------------------------------------
  // The encoder round trip.

  lemma HexDigitRoundTrip(v: int)
    requires 0 <= v < 16
    ensures IsHexDigit(HexDigit(v)) && HexValue(HexDigit(v)) == v
  {
  }

  /** The escaped form has no byte outside ASCII. */
  lemma {:induction false} EscapeIsAscii(bs: seq<byte>)
    ensures forall k :: 0 <= k < |EscapeBytes(bs)| ==> EscapeBytes(bs)[k] < 0x80
    decreases |bs|
  {
    if bs != [] {
      EscapeIsAscii(bs[1..]);
      var b := bs[0] as int;
      if !IsUnreserved(bs[0]) {
        HexDigitRoundTrip(b / 16);
        HexDigitRoundTrip(b % 16);
      }
    }
  }

  /** Escaping then decoding gives back the original bytes. */
  lemma {:induction false} DecodeEscapeBytes(bs: seq<byte>)
    ensures DecodeBytes(EscapeBytes(bs)) == Ok(bs)
    decreases |bs|
  {
    if bs != [] {
      var b := bs[0];
      var tail := EscapeBytes(bs[1..]);
      DecodeEscapeBytes(bs[1..]);
      if IsUnreserved(b) {
        assert EscapeBytes(bs) == [b] + tail;
        assert ([b] + tail)[1..] == tail;
      } else {
        var hi, lo := b as int / 16, b as int % 16;
        HexDigitRoundTrip(hi);
        HexDigitRoundTrip(lo);
        var e := [PERCENT, HexDigit(hi), HexDigit(lo)] + tail;
        assert EscapeBytes(bs) == e;
        assert e[3..] == tail;
        assert (hi * 16 + lo) as byte == b;
      }
      assert [b] + bs[1..] == bs;
    }
  }

  /** ASCII bytes read as characters and encoded again are the same bytes. */
  lemma {:induction false} ToUtf8AsciiString(bs: seq<byte>)
    requires forall k :: 0 <= k < |bs| ==> bs[k] < 0x80
    ensures ToUtf8(AsciiString(bs)) == bs
    decreases |bs|
  {
    if bs != [] {
      var s := AsciiString(bs);
      assert s[0] == bs[0] as int as char && s[1..] == AsciiString(bs[1..]);
      EncodeScalarAscii(s[0]);
      ToUtf8AsciiString(bs[1..]);
      assert [bs[0]] + bs[1..] == bs;
    }
  }

  // ---------------------------------------------------------------------
  // Properties of Decode on strings.

  /** A string without a `%` has no 0x25 byte in its encoding. */
  lemma {:induction false} ToUtf8NoPercent(s: string)
    requires '%' !in s
    ensures PERCENT !in ToUtf8(s)
    decreases |s|
  {
    if s != [] {
      assert s[0] in s;
      assert forall k :: 0 <= k < |s[1..]| ==> s[1..][k] in s;
      ToUtf8NoPercent(s[1..]);
      EncodeScalarAscii(s[0]);
    }
  }

  /** Text without `%` is passed through in front of whatever follows it. */
  lemma DecodePlainPrefix(a: string, b: string)
    requires '%' !in a
    ensures Decode(a + b) == PrefixOk(a, Decode(b))
  {
    ToUtf8Append(a, b);
    ToUtf8NoPercent(a);
    DecodeBytesPlain(ToUtf8(a));
    DecodeBytesAppend(ToUtf8(a), ToUtf8(b));
    match DecodeBytes(ToUtf8(b))
    case Err(e) =>
    case Ok(y) =>
      FromUtf8Prefix(a, y);
  }

  /** A link without `%` decodes to itself. */
  lemma DecodePlain(s: string)
    requires '%' !in s
    ensures Decode(s) == Ok(s)
  {
    DecodePlainPrefix(s, []);
    assert s + [] == s;
    assert Decode([]) == Ok([]);
  }

  /** An escape of an ASCII byte decodes to that character, in front of whatever follows. */
  lemma DecodeAsciiEscape(h1: char, h2: char, b: string)
    requires h1 as int < 0x80 && IsHexDigit(h1 as int as byte)
    requires h2 as int < 0x80 && IsHexDigit(h2 as int as byte)
    requires HexValue(h1 as int as byte) * 16 + HexValue(h2 as int as byte) < 0x80
    ensures Decode(['%', h1, h2] + b) ==
      PrefixOk([(HexValue(h1 as int as byte) * 16 + HexValue(h2 as int as byte)) as char], Decode(b))
  {
    var v := HexValue(h1 as int as byte) * 16 + HexValue(h2 as int as byte);
    var c := v as char;
    var e := [PERCENT, h1 as int as byte, h2 as int as byte];
    ToUtf8Append(['%', h1, h2], b);
    assert ToUtf8(['%', h1, h2]) == e by {
      EncodeScalarAscii('%');
      EncodeScalarAscii(h1);
      EncodeScalarAscii(h2);
      assert ['%', h1, h2][1..] == [h1, h2] && [h1, h2][1..] == [h2] && [h2][1..] == [];
      assert ToUtf8([h2]) == [h2 as int as byte];
      assert ToUtf8([h1, h2]) == [h1 as int as byte, h2 as int as byte];
    }
    assert DecodeBytes(e) == Ok([v as byte]) by {
      assert e[0] == PERCENT && e[1] == h1 as int as byte && e[2] == h2 as int as byte;
      assert e[3..] == [] && DecodeBytes(e[3..]) == Ok([]);
      assert [v as byte] + [] == [v as byte];
    }
    DecodeBytesAppend(e, ToUtf8(b));
    EncodeScalarAscii(c);
    assert ToUtf8([c]) == [v as byte];
    match DecodeBytes(ToUtf8(b))
    case Err(_) =>
    case Ok(y) =>
      FromUtf8Prefix([c], y);
  }

  /** Decoding fails on an escape exactly when some `%` in the link's bytes lacks two hex digits. */
  lemma DecodeMalformedIff(s: string)
    ensures Decode(s) == Err(MalformedEscape) <==> !WellFormedEscapes(ToUtf8(s))
  {
    DecodeBytesOkIff(ToUtf8(s));
  }

  /** `%20` decodes to a space. */
  lemma DecodeSpace(b: string)
    ensures Decode("%20" + b) == PrefixOk(" ", Decode(b))
  {
    DecodeAsciiEscape('2', '0', b);
  }

  /** Every string is the decoding of its percent-encoded form. */
  lemma DecodeEscape(s: string)
    ensures Decode(Escape(s)) == Ok(s)
  {
    var bs := EscapeBytes(ToUtf8(s));
    EscapeIsAscii(ToUtf8(s));
    ToUtf8AsciiString(bs);
    DecodeEscapeBytes(ToUtf8(s));
    FromToUtf8(s);
  }
}
