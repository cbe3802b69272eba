/**
 * The application/x-www-form-urlencoded query form as Python's `urllib.parse`
 * writes and reads it (section 5 of the WHATWG URL Standard, percent-encoding
 * as in section 2.1 of RFC 3986): `quote_plus`, `unquote_plus`, `urlencode`
 * over a dict and `parse_qsl` with its default arguments.
 */
module FormUrl {
  import opened Wrappers
  import opened Strings
  import opened Dicts
  import Utf8
  import Json

  /** Bytes `quote` never escapes: ASCII letters, digits and `_.-~`. */
  predicate AlwaysSafe(b: int)
  {
    ('A' as int <= b <= 'Z' as int) || ('a' as int <= b <= 'z' as int) || ('0' as int <= b <= '9' as int)
    || b == '_' as int || b == '.' as int || b == '-' as int || b == '~' as int
  }

  /** The characters `quote_plus` can produce. */
  predicate QuotedChar(c: char)
  {
    AlwaysSafe(c as int) || c == '+' || c == '%'
  }

  /** Upper-case hexadecimal digit, as `'%{:02X}'` writes. */
  function UpperHex(n: nat): (c: char)
    requires n < 16
    ensures Json.HexValue(c) == Some(n)
    ensures AlwaysSafe(c as int)
  {
    if n < 10 then ('0' as int + n) as char else ('A' as int + n - 10) as char
  }

  /** One byte as `quote_plus` writes it: safe bytes as themselves, a space as `+`, anything else as `%XX`. */
  function QuoteByte(b: Utf8.byte): (s: string)
    ensures |s| > 0 && forall i :: 0 <= i < |s| ==> QuotedChar(s[i])
  {
    if AlwaysSafe(b) then [b as char]
    else if b == 0x20 then "+"
    else "%" + [UpperHex(b / 16), UpperHex(b % 16)]
  }

  function QuoteBytes(bs: seq<Utf8.byte>): (s: string)
    ensures |s| >= |bs|
    ensures forall i :: 0 <= i < |s| ==> QuotedChar(s[i])
  {
    if |bs| == 0 then "" else QuoteByte(bs[0]) + QuoteBytes(bs[1..])
  }

  /** `quote_plus(s)`: the UTF-8 bytes of `s`, each written by `QuoteByte`. */
  function QuotePlus(s: string): (r: string)
    ensures |r| == 0 <==> |s| == 0
    ensures forall i :: 0 <= i < |r| ==> QuotedChar(r[i])
  {
    EncodeLength(s);
    QuoteBytes(Utf8.Encode(s))
  }

  lemma {:induction false} EncodeLength(s: string)
    ensures |Utf8.Encode(s)| >= |s|
  {
    if |s| > 0 {
      EncodeLength(s[1..]);
    }
  }

  /** `s.replace('+', ' ')`. */
  function PlusToSpace(s: string): (r: string)
    ensures |r| == |s|
    ensures forall i :: 0 <= i < |s| ==> r[i] == if s[i] == '+' then ' ' else s[i]
  {
    if |s| == 0 then "" else [if s[0] == '+' then ' ' else s[0]] + PlusToSpace(s[1..])
  }

  predicate IsAscii(c: char)
  {
    (c as int) < 0x80
  }

  /**
   * `unquote_to_bytes` on a run of ASCII text: a `%` followed by two hex
   * digits of either case is that byte; any other `%` and every other
   * character stand for themselves.
   */
  function PercentBytes(s: string): seq<Utf8.byte>
    requires forall i :: 0 <= i < |s| ==> IsAscii(s[i])
  {
    if |s| == 0 then []
    else if s[0] == '%' && |s| >= 3 && Json.HexValue(s[1]).Some? && Json.HexValue(s[2]).Some? then
      [Json.HexValue(s[1]).value * 16 + Json.HexValue(s[2]).value] + PercentBytes(s[3..])
    else
      assert IsAscii(s[0]);
      var b: Utf8.byte := s[0] as int;
      [b] + PercentBytes(s[1..])
  }

  /** The length of the ASCII run that starts `s`. */
  function AsciiRun(s: string): (n: nat)
    ensures n <= |s|
    ensures forall i :: 0 <= i < n ==> IsAscii(s[i])
    ensures n < |s| ==> !IsAscii(s[n])
    ensures (forall i :: 0 <= i < |s| ==> IsAscii(s[i])) ==> n == |s|
  {
    if |s| == 0 || !IsAscii(s[0]) then 0 else 1 + AsciiRun(s[1..])
  }

  /** Every ASCII run percent-decoded to bytes and read as UTF-8 with replacement; other characters kept. */
  function UnquoteRuns(s: string): string
    decreases |s|
  {
    if |s| == 0 then ""
    else if !IsAscii(s[0]) then [s[0]] + UnquoteRuns(s[1..])
    else
      var n := AsciiRun(s);
      Utf8.Decode(PercentBytes(s[..n])) + UnquoteRuns(s[n..])
  }

  /** `unquote(s)`: text without `%` is returned as it is. */
  function Unquote(s: string): string
  {
    if '%' !in s then s else UnquoteRuns(s)
  }

  /** `unquote_plus(s)`. */
  function UnquotePlus(s: string): string
  {
    Unquote(PlusToSpace(s))
  }

  function EncodePairs(d: seq<Pair>): (pieces: seq<string>)
    ensures |pieces| == |d|
  {
    if |d| == 0 then [] else [QuotePlus(d[0].0) + "=" + QuotePlus(d[0].1)] + EncodePairs(d[1..])
  }

  /** The `i`-th piece of `urlencode` is the `i`-th pair, quoted and joined by `=`. */
  lemma {:induction false} EncodePairsAt(d: seq<Pair>, i: nat)
    requires i < |d|
    ensures EncodePairs(d)[i] == QuotePlus(d[i].0) + "=" + QuotePlus(d[i].1)
  {
    if i > 0 {
      EncodePairsAt(d[1..], i - 1);
    }
  }

  /** `urlencode(d)`: `name=value` pieces in insertion order, joined by `&`. */
  function UrlEncode(d: Dict): string
  {
    Join(EncodePairs(d), '&')
  }

  /** One `&`-separated piece: empty pieces, pieces without `=` and blank values are skipped. */
  function ParsePiece(piece: string): (r: Option<Pair>)
    ensures r.Some? ==> '=' in piece
  {
    match SplitFirst(piece, '=')
    case None => None
    case Some((name, value)) =>
      if |value| == 0 then None else Some((UnquotePlus(name), UnquotePlus(value)))
  }

  function ParsePieces(pieces: seq<string>): seq<Pair>
  {
    if |pieces| == 0 then []
    else match ParsePiece(pieces[0])
      case None => ParsePieces(pieces[1..])
      case Some(p) => [p] + ParsePieces(pieces[1..])
  }

  /** `parse_qsl(qs)` with `keep_blank_values=False` and `strict_parsing=False`. */
  function ParseQsl(qs: string): seq<Pair>
  {
    if |qs| == 0 then [] else ParsePieces(Split(qs, '&'))
  }

  lemma PlusToSpaceAppend(a: string, b: string)
    ensures PlusToSpace(a + b) == PlusToSpace(a) + PlusToSpace(b)
  {
    var l, r := PlusToSpace(a + b), PlusToSpace(a) + PlusToSpace(b);
    forall i | 0 <= i < |l| ensures l[i] == r[i] {
      if i < |a| {
        assert (a + b)[i] == a[i] && r[i] == PlusToSpace(a)[i];
      } else {
        assert (a + b)[i] == b[i - |a|] && r[i] == PlusToSpace(b)[i - |a|];
      }
    }
  }

  /** One quoted byte, with `+` read back as a space, percent-decodes to that byte. */
  lemma QuoteByteDecodes(b: Utf8.byte, rest: string)
    requires forall i :: 0 <= i < |rest| ==> IsAscii(rest[i])
    ensures forall i :: 0 <= i < |PlusToSpace(QuoteByte(b)) + rest| ==> IsAscii((PlusToSpace(QuoteByte(b)) + rest)[i])
    ensures PercentBytes(PlusToSpace(QuoteByte(b)) + rest) == [b] + PercentBytes(rest)
  {
    var q := PlusToSpace(QuoteByte(b));
    var s := q + rest;
    if AlwaysSafe(b) || b == 0x20 {
      assert |q| == 1 && q[0] as int == b && s[1..] == rest;
    } else {
      var hi, lo := b / 16, b % 16;
      assert q == "%" + [UpperHex(hi), UpperHex(lo)];
      assert s[0] == '%' && s[1] == UpperHex(hi) && s[2] == UpperHex(lo) && s[3..] == rest;
    }
  }

  lemma {:induction false} QuoteBytesDecode(bs: seq<Utf8.byte>)
    ensures forall i :: 0 <= i < |PlusToSpace(QuoteBytes(bs))| ==> IsAscii(PlusToSpace(QuoteBytes(bs))[i])
    ensures PercentBytes(PlusToSpace(QuoteBytes(bs))) == bs
  {
    if |bs| > 0 {
      var rest := PlusToSpace(QuoteBytes(bs[1..]));
      PlusToSpaceAppend(QuoteByte(bs[0]), QuoteBytes(bs[1..]));
      QuoteBytesDecode(bs[1..]);
      QuoteByteDecodes(bs[0], rest);
      assert bs == [bs[0]] + bs[1..];
    }
  }

  /** ASCII text with no `%` percent-decodes to its own character codes. */
  lemma {:induction false} PercentBytesPlain(s: string)
    requires forall i :: 0 <= i < |s| ==> IsAscii(s[i])
    requires '%' !in s
    ensures |PercentBytes(s)| == |s|
    ensures forall i :: 0 <= i < |s| ==> PercentBytes(s)[i] == s[i] as int
  {
    if |s| > 0 {
      PercentBytesPlain(s[1..]);
    }
  }

  /** Text that is all ASCII is a single run: unquoting it is decoding its percent-bytes. */
  lemma AsciiUnquoteRuns(t: string)
    requires forall i :: 0 <= i < |t| ==> IsAscii(t[i])
    ensures UnquoteRuns(t) == Utf8.Decode(PercentBytes(t))
  {
    if |t| > 0 {
      assert t[..|t|] == t && t[|t|..] == "";
    }
  }

  /** ASCII text with no `%` reads back as itself. */
  lemma PlainDecodes(t: string)
    requires forall i :: 0 <= i < |t| ==> IsAscii(t[i])
    requires '%' !in t
    ensures Utf8.Decode(PercentBytes(t)) == t
  {
    PercentBytesPlain(t);
    Utf8.DecodeAscii(PercentBytes(t));
  }

  /** `unquote_plus` undoes `quote_plus`. */
  lemma UnquotePlusQuotePlus(s: string)
    ensures UnquotePlus(QuotePlus(s)) == s
  {
    var bs := Utf8.Encode(s);
    var t := PlusToSpace(QuoteBytes(bs));
    QuoteBytesDecode(bs);
    Utf8.DecodeEncode(s);
    if '%' in t {
      AsciiUnquoteRuns(t);
    } else {
      PlainDecodes(t);
    }
  }

  lemma QuotePlusNoSeparators(s: string)
    ensures '&' !in QuotePlus(s) && '=' !in QuotePlus(s)
  {
    var q := QuotePlus(s);
    forall i | 0 <= i < |q| ensures q[i] != '&' && q[i] != '=' {
      assert QuotedChar(q[i]);
    }
  }

  /** One `name=value` piece of `urlencode` parses back to its pair when the value is not blank. */
  lemma ParsePieceEncoded(k: string, v: string)
    requires |v| > 0
    ensures ParsePiece(QuotePlus(k) + "=" + QuotePlus(v)) == Some((k, v))
  {
    assert '=' !in QuotePlus(k) && |QuotePlus(v)| > 0 by {
      QuotePlusNoSeparators(k);
    }
    assert QuotePlus(k) + "=" + QuotePlus(v) == QuotePlus(k) + ['='] + QuotePlus(v);
    SplitFirstAt(QuotePlus(k), QuotePlus(v), '=');
    UnquotePlusQuotePlus(k);
    UnquotePlusQuotePlus(v);
  }

  lemma ParsePiecesCons(piece: string, rest: seq<string>, p: Pair)
    requires ParsePiece(piece) == Some(p)
    ensures ParsePieces([piece] + rest) == [p] + ParsePieces(rest)
  {
    assert ([piece] + rest)[1..] == rest;
  }

  /** `parse_qsl` on the pieces of `urlencode` reads the first pair back and goes on with the rest. */
  lemma ParsePiecesEncodedStep(d: seq<Pair>)
    requires |d| > 0 && |d[0].1| > 0
    ensures ParsePieces(EncodePairs(d)) == [d[0]] + ParsePieces(EncodePairs(d[1..]))
  {
    var head := QuotePlus(d[0].0) + "=" + QuotePlus(d[0].1);
    ParsePieceEncoded(d[0].0, d[0].1);
    ParsePiecesCons(head, EncodePairs(d[1..]), d[0]);
  }

  lemma {:induction false} ParsePiecesEncoded(d: seq<Pair>)
    requires forall i :: 0 <= i < |d| ==> |d[i].1| > 0
    ensures ParsePieces(EncodePairs(d)) == d
  {
    if |d| > 0 {
      ParsePiecesEncodedStep(d);
      assert ParsePieces(EncodePairs(d[1..])) == d[1..] by {
        ParsePiecesEncoded(d[1..]);
      }
      assert d == [d[0]] + d[1..];
    }
  }

  /**
   * `parse_qsl(urlencode(d))` gives back the pairs of `d`, in order, when no
   * value is empty (`parse_qsl` drops blank values).
   */
  lemma ParseQslUrlEncode(d: Dict)
    requires forall i :: 0 <= i < |d| ==> |d[i].1| > 0
    ensures ParseQsl(UrlEncode(d)) == d
  {
    var pieces := EncodePairs(d);
    if |d| > 0 {
      forall i | 0 <= i < |pieces| ensures '&' !in pieces[i] {
        EncodePairsAt(d, i);
        QuotePlusNoSeparators(d[i].0);
        QuotePlusNoSeparators(d[i].1);
      }
      SplitJoin(pieces, '&');
      assert |UrlEncode(d)| > 0 by {
        assert |pieces[0]| > 0 by { EncodePairsAt(d, 0); }
        JoinHasFirst(pieces, '&');
      }
      ParsePiecesEncoded(d);
    }
  }

  lemma JoinHasFirst(parts: seq<string>, c: char)
    requires |parts| > 0
    ensures |Join(parts, c)| >= |parts[0]|
  {
  }

  /** A blank value, or an empty dict, leaves nothing behind: `parse_qsl` drops the pair. */
  lemma BlankValueDropped(k: string)
    ensures ParseQsl(QuotePlus(k) + "=") == []
  {
    var qs := QuotePlus(k) + "=";
    QuotePlusNoSeparators(k);
    assert qs == QuotePlus(k) + ['='] + "";
    SplitFirstAt(QuotePlus(k), "", '=');
    assert '&' !in qs;
    assert SplitFirst(qs, '&') == None;
    assert Split(qs, '&') == [qs];
    assert SplitFirst(qs, '=') == Some((QuotePlus(k), ""));
    assert ParsePiece(qs) == None;
    assert ParsePieces([qs]) == ParsePieces([]);
  }
}
