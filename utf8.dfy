/**
 * The UTF-8 encoding of Rust strings.
 *
 * A Rust `&str` is a sequence of Unicode scalar values stored as UTF-8;
 * `as_bytes` exposes the bytes and `String::from_utf8` accepts exactly the
 * well-formed byte sequences of table 3-7 of the Unicode Standard (chapter 3,
 * section 3.9).  Dafny's `char` is a Unicode scalar value, so a Rust string is
 * a `string` here, and `ToUtf8` / `FromUtf8` are the two directions.
 */
module Utf8 {
  import opened Wrappers

  newtype byte = x: int | 0 <= x < 0x100

  predicate IsContinuation(b: byte) {
    0x80 <= b < 0xC0
  }

  /** The bytes of one scalar value: 1 to 4 bytes by the size of the value. */
  function EncodeScalar(c: char): (bs: seq<byte>) {
    var v := c as int;
    if v < 0x80 then
      [v as byte]
    else if v < 0x800 then
      [(0xC0 + v / 0x40) as byte, (0x80 + v % 0x40) as byte]
    else if v < 0x1_0000 then
      [(0xE0 + v / 0x1000) as byte, (0x80 + v / 0x40 % 0x40) as byte, (0x80 + v % 0x40) as byte]
    else
      [(0xF0 + v / 0x4_0000) as byte, (0x80 + v / 0x1000 % 0x40) as byte,
       (0x80 + v / 0x40 % 0x40) as byte, (0x80 + v % 0x40) as byte]
  }

  /** `str::as_bytes`: the concatenated encodings of the scalar values. */
  function ToUtf8(s: string): (bs: seq<byte>) {
    if s == [] then [] else EncodeScalar(s[0]) + ToUtf8(s[1..])
  }

  /**
   * The range the second byte of a 3- or 4-byte sequence must lie in, given
   * its lead byte; this range excludes overlong forms, surrogates and values
   * beyond U+10FFFF.
   */
  predicate SecondByteOk(lead: byte, b: byte) {
    if lead == 0xE0 then 0xA0 <= b < 0xC0
    else if lead == 0xED then 0x80 <= b < 0xA0
    else if lead == 0xF0 then 0x90 <= b < 0xC0
    else if lead == 0xF4 then 0x80 <= b < 0x90
    else IsContinuation(b)
  }

  /**
   * The scalar value at the head of `bs` and the number of bytes it takes,
   * or None when the head is not a well-formed sequence.
   */
  function DecodeScalar(bs: seq<byte>): (r: Option<(char, nat)>)
    requires |bs| > 0
    ensures r.Some? ==> 1 <= r.value.1 <= |bs| && r.value.1 <= 4
  {
    var b0 := bs[0] as int;
    if b0 < 0x80 then
      Some((b0 as char, 1))
    else if 0xC2 <= b0 < 0xE0 then
      if 2 <= |bs| && IsContinuation(bs[1]) then
        var v := (b0 - 0xC0) * 0x40 + (bs[1] as int - 0x80);
        Some((v as char, 2))
      else None
    else if 0xE0 <= b0 < 0xF0 then
      if 3 <= |bs| && SecondByteOk(bs[0], bs[1]) && IsContinuation(bs[2]) then
        var v := (b0 - 0xE0) * 0x1000 + (bs[1] as int - 0x80) * 0x40 + (bs[2] as int - 0x80);
        Some((v as char, 3))
      else None
    else if 0xF0 <= b0 < 0xF5 then
      if 4 <= |bs| && SecondByteOk(bs[0], bs[1]) && IsContinuation(bs[2]) && IsContinuation(bs[3]) then
        var v := (b0 - 0xF0) * 0x4_0000 + (bs[1] as int - 0x80) * 0x1000
               + (bs[2] as int - 0x80) * 0x40 + (bs[3] as int - 0x80);
        Some((v as char, 4))
      else None
    else None
  }

  /** `String::from_utf8`: the scalar values of `bs`, or None when `bs` is not UTF-8. */
  function FromUtf8(bs: seq<byte>): (r: Option<string>)
    decreases |bs|
  {
    if bs == [] then Some([])
    else match DecodeScalar(bs)
      case None => None
      case Some((c, n)) =>
        match FromUtf8(bs[n..])
        case None => None
        case Some(rest) => Some([c] + rest)
  }

  /** The scalar values of `prefix` in front of a decoding result. */
  function PrefixSome(prefix: string, r: Option<string>): (res: Option<string>) {
    match r
    case None => None
    case Some(t) => Some(prefix + t)
  }

  lemma ToUtf8Append(a: string, b: string)
    ensures ToUtf8(a + b) == ToUtf8(a) + ToUtf8(b)
  {
    if a == [] {
      assert a + b == b;
    } else {
      assert (a + b)[0] == a[0] && (a + b)[1..] == a[1..] + b;
      ToUtf8Append(a[1..], b);
    }
  }

  /** An ASCII scalar value is its own single byte; every other one encodes to bytes of 0x80 and above. */
  lemma EncodeScalarAscii(c: char)
    ensures c as int < 0x80 ==> EncodeScalar(c) == [c as int as byte]
    ensures c as int >= 0x80 ==> forall k :: 0 <= k < |EncodeScalar(c)| ==> EncodeScalar(c)[k] >= 0x80
  {
    var v := c as int;
    var e := EncodeScalar(c);
    if 0x80 <= v < 0x800 {
      assert e[0] as int == 0xC0 + v / 0x40 && e[1] as int == 0x80 + v % 0x40;
    } else if 0x800 <= v < 0x1_0000 {
      assert e[0] as int == 0xE0 + v / 0x1000;
    } else if 0x1_0000 <= v {
      assert e[0] as int == 0xF0 + v / 0x4_0000;
    }
  }

  lemma DivMod64(v: int, q: int, r: int)
    requires 0 <= r < 0x40 && v == q * 0x40 + r
    ensures v / 0x40 == q && v % 0x40 == r
  {
  }

  lemma DivMod4096(v: int, q: int, r: int)
    requires 0 <= r < 0x1000 && v == q * 0x1000 + r
    ensures v / 0x1000 == q && v % 0x1000 == r
  {
  }

  lemma DivMod262144(v: int, q: int, r: int)
    requires 0 <= r < 0x4_0000 && v == q * 0x4_0000 + r
    ensures v / 0x4_0000 == q && v % 0x4_0000 == r
  {
  }

  /**
   * The 6-bit groups of a non-negative value: `v` is `a * 0x4_0000 + b * 0x1000 + c * 0x40 + d`
   * for its groups a, b, c, d.
   */
  lemma SixBitGroups(v: int)
    requires 0 <= v
    ensures v == v / 0x4_0000 * 0x4_0000 + v / 0x1000 % 0x40 * 0x1000 + v / 0x40 % 0x40 * 0x40 + v % 0x40
    ensures v / 0x1000 == v / 0x4_0000 * 0x40 + v / 0x1000 % 0x40
    ensures v / 0x40 == v / 0x1000 * 0x40 + v / 0x40 % 0x40
  {
    var d, c, b, a := v % 0x40, v / 0x40 % 0x40, v / 0x1000 % 0x40, v / 0x4_0000;
    var q1 := v / 0x40;
    assert v == q1 * 0x40 + d;
    var q2 := q1 / 0x40;
    assert q1 == q2 * 0x40 + c;
    var q3 := q2 / 0x40;
    assert q2 == q3 * 0x40 + (q2 % 0x40);
    DivMod4096(v, q2, c * 0x40 + d);
    assert b == q2 % 0x40;
    DivMod262144(v, q3, (q2 % 0x40) * 0x1000 + c * 0x40 + d);
  }

  /** Decoding the head of an encoded scalar value gives back the value and its length. */
  lemma DecodeEncodeScalar(c: char, tail: seq<byte>)
    ensures DecodeScalar(EncodeScalar(c) + tail) == Some((c, |EncodeScalar(c)|))
  {
    var v := c as int;
    var bs := EncodeScalar(c) + tail;
    SixBitGroups(v);
    if v < 0x80 {
    } else if v < 0x800 {
      assert bs[0] as int == 0xC0 + v / 0x40 && bs[1] as int == 0x80 + v % 0x40;
    } else if v < 0x1_0000 {
      assert v / 0x4_0000 == 0;
      assert bs[0] as int == 0xE0 + v / 0x1000;
      assert bs[1] as int == 0x80 + v / 0x40 % 0x40;
      assert bs[2] as int == 0x80 + v % 0x40;
    } else {
      assert bs[0] as int == 0xF0 + v / 0x4_0000;
      assert bs[1] as int == 0x80 + v / 0x1000 % 0x40;
      assert bs[2] as int == 0x80 + v / 0x40 % 0x40;
      assert bs[3] as int == 0x80 + v % 0x40;
    }
  }

  /** Decoding an encoded string followed by other bytes decodes the string, then the rest. */
  lemma {:induction false} FromUtf8Prefix(s: string, tail: seq<byte>)
    ensures FromUtf8(ToUtf8(s) + tail) == PrefixSome(s, FromUtf8(tail))
    decreases |s|
  {
    if s != [] {
      var e := EncodeScalar(s[0]);
      var rest := ToUtf8(s[1..]) + tail;
      assert ToUtf8(s) + tail == e + rest;
      DecodeEncodeScalar(s[0], rest);
      assert (e + rest)[|e|..] == rest;
      FromUtf8Prefix(s[1..], tail);
      assert FromUtf8(e + rest) == PrefixSome([s[0]], FromUtf8(rest));
      match FromUtf8(tail)
      case None =>
      case Some(t) =>
        assert [s[0]] + (s[1..] + t) == s + t;
    } else {
      assert ToUtf8(s) + tail == tail;
      if FromUtf8(tail).Some? {
        assert s + FromUtf8(tail).value == FromUtf8(tail).value;
      }
    }
  }

  /** Every string survives the round trip through its UTF-8 bytes. */
  lemma FromToUtf8(s: string)
    ensures FromUtf8(ToUtf8(s)) == Some(s)
  {
    FromUtf8Prefix(s, []);
    assert ToUtf8(s) + [] == ToUtf8(s);
    assert s + [] == s;
  }

  /** A decoded scalar value re-encodes to exactly the bytes it was read from. */
  lemma EncodeDecodeScalar(bs: seq<byte>)
    requires |bs| > 0 && DecodeScalar(bs).Some?
    ensures EncodeScalar(DecodeScalar(bs).value.0) == bs[..DecodeScalar(bs).value.1]
  {
    var (c, n) := DecodeScalar(bs).value;
    var v := c as int;
    var b0 := bs[0] as int;
    var e := EncodeScalar(c);
    if n == 2 {
      var x1 := bs[1] as int - 0x80;
      assert v == (b0 - 0xC0) * 0x40 + x1;
      DivMod64(v, b0 - 0xC0, x1);
      assert e == [bs[0], bs[1]];
    } else if n == 3 {
      var x1, x2 := bs[1] as int - 0x80, bs[2] as int - 0x80;
      assert v == (b0 - 0xE0) * 0x1000 + x1 * 0x40 + x2;
      assert 0x800 <= v < 0x1_0000;
      DivMod4096(v, b0 - 0xE0, x1 * 0x40 + x2);
      DivMod64(v, (b0 - 0xE0) * 0x40 + x1, x2);
      DivMod64(v / 0x40, b0 - 0xE0, x1);
      assert e == [bs[0], bs[1], bs[2]];
    } else if n == 4 {
      var x1, x2, x3 := bs[1] as int - 0x80, bs[2] as int - 0x80, bs[3] as int - 0x80;
      assert v == (b0 - 0xF0) * 0x4_0000 + x1 * 0x1000 + x2 * 0x40 + x3;
      assert 0x1_0000 <= v;
      DivMod262144(v, b0 - 0xF0, x1 * 0x1000 + x2 * 0x40 + x3);
      DivMod4096(v, (b0 - 0xF0) * 0x40 + x1, x2 * 0x40 + x3);
      DivMod64(v / 0x1000, b0 - 0xF0, x1);
      DivMod64(v, (b0 - 0xF0) * 0x1000 + x1 * 0x40 + x2, x3);
      DivMod64(v / 0x40, (b0 - 0xF0) * 0x40 + x1, x2);
      assert e == [bs[0], bs[1], bs[2], bs[3]];
    }
  }

  /** Encoding a string that starts with `c` starts with the encoding of `c`. */
  lemma ToUtf8Cons(c: char, rest: string)
    ensures ToUtf8([c] + rest) == EncodeScalar(c) + ToUtf8(rest)
  {
    var s := [c] + rest;
    assert s[0] == c && s[1..] == rest;
  }

  /** Whatever FromUtf8 accepts is the encoding of what it returns. */
  lemma {:induction false} ToFromUtf8(bs: seq<byte>)
    requires FromUtf8(bs).Some?
    ensures ToUtf8(FromUtf8(bs).value) == bs
    decreases |bs|
  {
    if bs != [] {
      var (c, n) := DecodeScalar(bs).value;
      var rest := FromUtf8(bs[n..]).value;
      assert FromUtf8(bs).value == [c] + rest;
      EncodeDecodeScalar(bs);
      ToFromUtf8(bs[n..]);
      ToUtf8Cons(c, rest);
      assert bs[..n] + bs[n..] == bs;
    }
  }
}
