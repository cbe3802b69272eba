/**
 * UTF-8 as Python's `str.encode('utf-8')` and `bytes.decode('utf-8', 'replace')`
 * use it. Decoding replaces each maximal ill-formed subpart with U+FFFD and goes
 * on after it, following the Unicode Standard's table of well-formed byte
 * sequences (section 3.9 of the Unicode Standard, table 3-7).
 */
module Utf8 {

  type byte = b: int | 0 <= b < 256

  const Replacement: char := 0xFFFD as char

  /** The bytes of one code point. */
  function EncodeChar(c: char): (bs: seq<byte>)
    ensures 1 <= |bs| <= 4
    ensures |bs| == 1 <==> (c as int) < 0x80
  {
    var n := c as int;
    if n < 0x80 then [n]
    else if n < 0x800 then [0xC0 + n / 0x40, 0x80 + n % 0x40]
    else if n < 0x10000 then [0xE0 + n / 0x1000, 0x80 + n / 0x40 % 0x40, 0x80 + n % 0x40]
    else [0xF0 + n / 0x40000, 0x80 + n / 0x1000 % 0x40, 0x80 + n / 0x40 % 0x40, 0x80 + n % 0x40]
  }

  /** `s.encode('utf-8')`. */
  function Encode(s: string): seq<byte>
  {
    if |s| == 0 then [] else EncodeChar(s[0]) + Encode(s[1..])
  }

  predicate IsContinuation(b: byte)
  {
    0x80 <= b <= 0xBF
  }

  /**
   * For a byte that starts a multi-byte sequence: how many continuation bytes
   * follow it and the range allowed for the first of them (the others range
   * over 80..BF). Bytes that start nothing are `Invalid`.
   */
  function Lead(b: byte): (r: LeadInfo)
  {
    if 0xC2 <= b <= 0xDF then Need(1, 0x80, 0xBF)
    else if b == 0xE0 then Need(2, 0xA0, 0xBF)
    else if 0xE1 <= b <= 0xEC || b == 0xEE || b == 0xEF then Need(2, 0x80, 0xBF)
    else if b == 0xED then Need(2, 0x80, 0x9F)
    else if b == 0xF0 then Need(3, 0x90, 0xBF)
    else if 0xF1 <= b <= 0xF3 then Need(3, 0x80, 0xBF)
    else if b == 0xF4 then Need(3, 0x80, 0x8F)
    else Invalid
  }

  datatype LeadInfo = Need(count: nat, lo: byte, hi: byte) | Invalid

  /**
   * How many of the `count` bytes after the lead byte continue the sequence
   * well-formedly, the first of them in `lo..hi`.
   */
  function Matched(bs: seq<byte>, count: nat, lo: byte, hi: byte): (m: nat)
    ensures m <= count && m <= |bs|
  {
    if count == 0 || |bs| == 0 || !(lo <= bs[0] <= hi) then 0
    else 1 + Matched(bs[1..], count - 1, 0x80, 0xBF)
  }

  /** All `count` bytes continue the sequence exactly when the first is in `lo..hi` and the others are continuation bytes. */
  lemma {:induction false} MatchedAll(bs: seq<byte>, count: nat, lo: byte, hi: byte)
    ensures Matched(bs, count, lo, hi) == count <==>
      count <= |bs| && (count == 0 || lo <= bs[0] <= hi) && forall i :: 1 <= i < count ==> IsContinuation(bs[i])
  {
    if count > 0 && |bs| > 0 && lo <= bs[0] <= hi {
      MatchedAll(bs[1..], count - 1, 0x80, 0xBF);
      if count - 1 > 0 && |bs| > 1 {
        assert bs[1..][0] == bs[1];
      }
      forall i | 1 <= i < count && i < |bs| ensures bs[i] == bs[1..][i - 1] {}
    }
  }

  /** The code point of a complete, well-formed sequence `b0 bs`. */
  function Combine(b0: byte, bs: seq<byte>): (r: char)
    requires Lead(b0).Need? && Matched(bs, Lead(b0).count, Lead(b0).lo, Lead(b0).hi) == Lead(b0).count
  {
    var n := Lead(b0).count;
    MatchedAll(bs, n, Lead(b0).lo, Lead(b0).hi);
    assert n >= 2 ==> IsContinuation(bs[1]);
    assert n == 3 ==> IsContinuation(bs[2]);
    var x0, b := b0 as int, bs[0] as int;
    if n == 1 then
      ((x0 - 0xC0) * 0x40 + (b - 0x80)) as char
    else if n == 2 then
      var v := (x0 - 0xE0) * 0x1000 + (b - 0x80) * 0x40 + (bs[1] as int - 0x80);
      assert v < 0xD800 || 0xE000 <= v < 0x10000;
      v as char
    else
      var v := (x0 - 0xF0) * 0x40000 + (b - 0x80) * 0x1000 + (bs[1] as int - 0x80) * 0x40 + (bs[2] as int - 0x80);
      assert 0x10000 <= v < 0x110000;
      v as char
  }

  /**
   * The character at the start of `bs` and how many bytes it takes: a
   * well-formed sequence gives its code point, a maximal ill-formed subpart
   * gives one U+FFFD.
   */
  function DecodeOne(bs: seq<byte>): (r: (char, nat))
    requires |bs| > 0
    ensures 1 <= r.1 <= |bs|
  {
    var b0 := bs[0];
    if b0 < 0x80 then (b0 as char, 1)
    else match Lead(b0)
      case Invalid => (Replacement, 1)
      case Need(count, lo, hi) =>
        var m := Matched(bs[1..], count, lo, hi);
        if m == count then (Combine(b0, bs[1..]), 1 + count) else (Replacement, 1 + m)
  }

  /** `bs.decode('utf-8', 'replace')`. */
  function Decode(bs: seq<byte>): string
    decreases |bs|
  {
    if |bs| == 0 then ""
    else
      var (c, n) := DecodeOne(bs);
      [c] + Decode(bs[n..])
  }

  lemma DecodeOneAscii(b: byte, rest: seq<byte>)
    requires b < 0x80
    ensures DecodeOne([b] + rest) == (b as char, 1)
  {
  }

  lemma DecodeOneTwo(c: char, rest: seq<byte>)
    requires 0x80 <= c as int < 0x800
    ensures DecodeOne(EncodeChar(c) + rest) == (c, 2)
  {
    var n := c as int;
    var bs := EncodeChar(c) + rest;
    assert bs[0] == 0xC0 + n / 0x40 && bs[1] == 0x80 + n % 0x40;
    assert Lead(bs[0]) == Need(1, 0x80, 0xBF);
    assert Matched(bs[1..], 1, 0x80, 0xBF) == 1;
  }

  lemma DecodeOneThree(c: char, rest: seq<byte>)
    requires 0x800 <= c as int < 0x10000
    ensures DecodeOne(EncodeChar(c) + rest) == (c, 3)
  {
    var n := c as int;
    var bs := EncodeChar(c) + rest;
    var b0, b1, b2 := 0xE0 + n / 0x1000, 0x80 + n / 0x40 % 0x40, 0x80 + n % 0x40;
    assert bs[0] == b0 && bs[1] == b1 && bs[2] == b2;
    assert n == (n / 0x1000) * 0x1000 + (n / 0x40 % 0x40) * 0x40 + n % 0x40;
    var lead := Lead(b0);
    assert lead.Need? && lead.count == 2 && lead.lo <= b1 <= lead.hi;
    MatchedAll(bs[1..], 2, lead.lo, lead.hi);
  }

  lemma DecodeOneFour(c: char, rest: seq<byte>)
    requires 0x10000 <= c as int
    ensures DecodeOne(EncodeChar(c) + rest) == (c, 4)
  {
    var n := c as int;
    var bs := EncodeChar(c) + rest;
    var b0, b1, b2, b3 := 0xF0 + n / 0x40000, 0x80 + n / 0x1000 % 0x40, 0x80 + n / 0x40 % 0x40, 0x80 + n % 0x40;
    assert bs[0] == b0 && bs[1] == b1 && bs[2] == b2 && bs[3] == b3;
    FourDigits(n);
    var lead := Lead(b0);
    assert lead.Need? && lead.count == 3 && lead.lo <= b1 <= lead.hi;
    MatchedAll(bs[1..], 3, lead.lo, lead.hi);
  }

  /** The base-64 digits of a supplementary code point, and the range of its second byte. */
  lemma FourDigits(n: int)
    requires 0x10000 <= n < 0x110000
    ensures n == (n / 0x40000) * 0x40000 + (n / 0x1000 % 0x40) * 0x1000 + (n / 0x40 % 0x40) * 0x40 + n % 0x40
    ensures n / 0x40000 <= 4
    ensures n / 0x40000 == 0 ==> n / 0x1000 % 0x40 >= 0x10
    ensures n / 0x40000 == 4 ==> n / 0x1000 % 0x40 < 0x10
  {
    var a := n / 0x40;
    var b := a / 0x40;
    assert n == a * 0x40 + n % 0x40;
    assert a == b * 0x40 + a % 0x40;
    assert n / 0x1000 == b;
    assert b == (b / 0x40) * 0x40 + b % 0x40;
    assert n / 0x40000 == b / 0x40;
  }

  /** The bytes of a character read back as that character, whatever follows them. */
  lemma DecodeOneEncodeChar(c: char, rest: seq<byte>)
    ensures DecodeOne(EncodeChar(c) + rest) == (c, |EncodeChar(c)|)
  {
    var n := c as int;
    if n < 0x80 {
      DecodeOneAscii(n, rest);
    } else if n < 0x800 {
      DecodeOneTwo(c, rest);
    } else if n < 0x10000 {
      DecodeOneThree(c, rest);
    } else {
      DecodeOneFour(c, rest);
    }
  }

  /** Decoding undoes encoding: every string survives the round trip. */
  lemma {:induction false} DecodeEncode(s: string)
    ensures Decode(Encode(s)) == s
  {
    if |s| > 0 {
      var e := EncodeChar(s[0]);
      var rest := Encode(s[1..]);
      assert Encode(s) == e + rest;
      assert DecodeOne(e + rest) == (s[0], |e|) by {
        DecodeOneEncodeChar(s[0], rest);
      }
      assert (e + rest)[|e|..] == rest;
      assert Decode(rest) == s[1..] by {
        DecodeEncode(s[1..]);
      }
      assert s == [s[0]] + s[1..];
    }
  }

  /** Bytes below 0x80 decode one to one. */
  lemma {:induction false} DecodeAscii(bs: seq<byte>)
    requires forall i :: 0 <= i < |bs| ==> bs[i] < 0x80
    ensures |Decode(bs)| == |bs|
    ensures forall i :: 0 <= i < |bs| ==> Decode(bs)[i] as int == bs[i]
  {
    if |bs| > 0 {
      DecodeAscii(bs[1..]);
    }
  }
}
