/**
 * The JSON text of a string-to-string dict as Python's `json.dumps(d, sort_keys=True)`
 * writes it (default separators ", " and ": ", `ensure_ascii`), and the
 * reading of that text back as `json.loads` does it.
 */
module Json {
  import opened Wrappers
  import opened Dicts

  /** Lower-case hexadecimal digit, as `'{0:04x}'.format(n)` writes. */
  function HexDigit(n: nat): (c: char)
    requires n < 16
  {
    if n < 10 then ('0' as int + n) as char else ('a' as int + n - 10) as char
  }

  /** Value of a hexadecimal digit of either case. */
  function HexValue(c: char): (r: Option<nat>)
    ensures r.Some? ==> r.value < 16
  {
    if '0' <= c <= '9' then Some(c as int - '0' as int)
    else if 'a' <= c <= 'f' then Some(c as int - 'a' as int + 10)
    else if 'A' <= c <= 'F' then Some(c as int - 'A' as int + 10)
    else None
  }

  function Hex4(n: nat): (s: string)
    requires n < 0x10000
    ensures |s| == 4
  {
    [HexDigit(n / 0x1000), HexDigit(n / 0x100 % 0x10), HexDigit(n / 0x10 % 0x10), HexDigit(n % 0x10)]
  }

  function ParseHex4(s: string): (r: Option<nat>)
    requires |s| == 4
    ensures r.Some? ==> r.value < 0x10000
  {
    match (HexValue(s[0]), HexValue(s[1]), HexValue(s[2]), HexValue(s[3]))
    case (Some(a), Some(b), Some(c), Some(d)) => Some(a * 0x1000 + b * 0x100 + c * 0x10 + d)
    case _ => None
  }

  lemma HexDigitValue(n: nat)
    requires n < 16
    ensures HexValue(HexDigit(n)) == Some(n)
  {
  }

  lemma Hex4RoundTrip(n: nat)
    requires n < 0x10000
    ensures ParseHex4(Hex4(n)) == Some(n)
  {
    var a, b, c, d := n / 0x1000, n / 0x100 % 0x10, n / 0x10 % 0x10, n % 0x10;
    HexDigitValue(a);
    HexDigitValue(b);
    HexDigitValue(c);
    HexDigitValue(d);
    Hex4Digits(n);
  }

  lemma Hex4Digits(n: nat)
    requires n < 0x10000
    ensures n == (n / 0x1000) * 0x1000 + (n / 0x100 % 0x10) * 0x100 + (n / 0x10 % 0x10) * 0x10 + n % 0x10
  {
    assert n / 0x100 == (n / 0x1000) * 0x10 + n / 0x100 % 0x10;
    assert n / 0x10 == (n / 0x100) * 0x10 + n / 0x10 % 0x10;
    assert n == (n / 0x10) * 0x10 + n % 0x10;
  }

  /** One character as `json.dumps` writes it inside a string literal. */
  function EscapeChar(c: char): (e: string)
    ensures |e| > 0 && e[0] != '"'
  {
    if c == '"' then "\\\""
    else if c == '\\' then "\\\\"
    else if c == '\n' then "\\n"
    else if c == '\r' then "\\r"
    else if c == '\t' then "\\t"
    else if c as int == 0x08 then "\\b"
    else if c as int == 0x0C then "\\f"
    else if ' ' <= c <= '~' then [c]
    else if c as int < 0x10000 then "\\u" + Hex4(c as int)
    else
      var v := c as int - 0x10000;
      "\\u" + Hex4(0xD800 + v / 0x400) + "\\u" + Hex4(0xDC00 + v % 0x400)
  }

  function Escape(s: string): string
  {
    if |s| == 0 then "" else EscapeChar(s[0]) + Escape(s[1..])
  }

  function Quote(s: string): string
  {
    "\"" + Escape(s) + "\""
  }

  /**
   * The escape sequence at the start of `s` (which begins with a backslash):
   * the character it stands for and how many characters it takes. A `\u`
   * escape naming half of a surrogate pair that is not completed is left
   * undecoded, since no character of the model stands for it.
   */
  function DecodeEscape(s: string): (r: Option<(char, nat)>)
    requires |s| > 0 && s[0] == '\\'
    ensures r.Some? ==> 2 <= r.value.1 <= |s|
  {
    if |s| < 2 then None
    else if s[1] == '"' then Some(('"', 2))
    else if s[1] == '\\' then Some(('\\', 2))
    else if s[1] == '/' then Some(('/', 2))
    else if s[1] == 'b' then Some((0x08 as char, 2))
    else if s[1] == 'f' then Some((0x0C as char, 2))
    else if s[1] == 'n' then Some(('\n', 2))
    else if s[1] == 'r' then Some(('\r', 2))
    else if s[1] == 't' then Some(('\t', 2))
    else if s[1] == 'u' && |s| >= 6 then
      match ParseHex4(s[2..6])
      case None => None
      case Some(hi) =>
        if 0xD800 <= hi <= 0xDBFF then
          if |s| >= 12 && s[6] == '\\' && s[7] == 'u' then
            match ParseHex4(s[8..12])
            case Some(lo) =>
              if 0xDC00 <= lo <= 0xDFFF then
                Some(((0x10000 + (hi - 0xD800) * 0x400 + (lo - 0xDC00)) as char, 12))
              else None
            case None => None
          else None
        else if 0xDC00 <= hi <= 0xDFFF then None
        else Some((hi as char, 6))
    else None
  }

  /** One character of a string literal, not its closing quote; raw control characters are refused. */
  function DecodeUnit(s: string): (r: Option<(char, nat)>)
    requires |s| > 0
    ensures r.Some? ==> 1 <= r.value.1 <= |s|
  {
    if s[0] == '\\' then DecodeEscape(s)
    else if (s[0] as int) < 0x20 then None
    else Some((s[0], 1))
  }

  /** The body of a string literal up to its closing quote: the text it stands for and what follows the quote. */
  function DecodeString(s: string): (r: Option<(string, string)>)
    ensures r.Some? ==> |r.value.1| < |s|
    decreases |s|
  {
    if |s| == 0 then None
    else if s[0] == '"' then Some(("", s[1..]))
    else match DecodeUnit(s)
      case None => None
      case Some((c, n)) =>
        match DecodeString(s[n..])
        case None => None
        case Some((text, rest)) => Some(([c] + text, rest))
  }

  lemma EscapeCharDecodes(c: char, t: string)
    ensures DecodeUnit(EscapeChar(c) + t) == Some((c, |EscapeChar(c)|))
  {
    var e := EscapeChar(c);
    var s := e + t;
    var n := c as int;
    if c == '"' || c == '\\' || c == '\n' || c == '\r' || c == '\t' || n == 0x08 || n == 0x0C {
      assert s[0] == '\\' && s[1] == e[1];
    } else if ' ' <= c <= '~' {
      assert s[0] == c;
    } else if n < 0x10000 {
      EscapeBmpDecodes(c, t);
    } else {
      EscapeAstralDecodes(c, t);
    }
  }

  /** A character of the Basic Multilingual Plane outside printable ASCII reads back from its `\uXXXX` escape. */
  lemma EscapeBmpDecodes(c: char, t: string)
    requires !(' ' <= c <= '~') && c as int < 0x10000
    requires c != '"' && c != '\\' && c != '\n' && c != '\r' && c != '\t' && c as int != 0x08 && c as int != 0x0C
    ensures DecodeUnit(EscapeChar(c) + t) == Some((c, |EscapeChar(c)|))
  {
    var n := c as int;
    var e := EscapeChar(c);
    var s := e + t;
    assert e == "\\u" + Hex4(n);
    assert s[0] == '\\' && s[1] == 'u' && s[2..6] == Hex4(n);
    Hex4RoundTrip(n);
  }

  /** A character beyond the Basic Multilingual Plane reads back from its surrogate-pair escape. */
  lemma EscapeAstralDecodes(c: char, t: string)
    requires 0x10000 <= c as int
    ensures DecodeUnit(EscapeChar(c) + t) == Some((c, |EscapeChar(c)|))
  {
    var n := c as int;
    var hi, lo := 0xD800 + (n - 0x10000) / 0x400, 0xDC00 + (n - 0x10000) % 0x400;
    var s := EscapeChar(c) + t;
    SurrogatePair(n);
    AstralShape(c, t);
    assert ParseHex4(s[2..6]) == Some(hi) by {
      Hex4RoundTrip(hi);
    }
    assert ParseHex4(s[8..12]) == Some(lo) by {
      Hex4RoundTrip(lo);
    }
    DecodeSurrogateEscape(s, hi, lo);
  }

  /** The decoder's reading of a `\\uXXXX\\uXXXX` surrogate pair. */
  lemma DecodeSurrogateEscape(s: string, hi: nat, lo: nat)
    requires |s| >= 12 && s[0] == '\\' && s[1] == 'u' && s[6] == '\\' && s[7] == 'u'
    requires ParseHex4(s[2..6]) == Some(hi) && ParseHex4(s[8..12]) == Some(lo)
    requires 0xD800 <= hi <= 0xDBFF && 0xDC00 <= lo <= 0xDFFF
    ensures 0x10000 + (hi - 0xD800) * 0x400 + (lo - 0xDC00) < 0x110000
    ensures DecodeUnit(s) == Some(((0x10000 + (hi - 0xD800) * 0x400 + (lo - 0xDC00)) as char, 12))
  {
  }

  /** The two halves of a surrogate pair and the code point they combine back to. */
  lemma SurrogatePair(n: int)
    requires 0x10000 <= n < 0x110000
    ensures var hi, lo := 0xD800 + (n - 0x10000) / 0x400, 0xDC00 + (n - 0x10000) % 0x400;
      0xD800 <= hi <= 0xDBFF && 0xDC00 <= lo <= 0xDFFF && 0x10000 + (hi - 0xD800) * 0x400 + (lo - 0xDC00) == n
  {
  }

  /** Where the two `\\uXXXX` halves sit in a surrogate-pair escape. */
  lemma AstralShape(c: char, t: string)
    requires 0x10000 <= c as int
    ensures var n := c as int;
      var s := EscapeChar(c) + t;
      |EscapeChar(c)| == 12 && |s| >= 12 && s[0] == '\\' && s[1] == 'u' && s[6] == '\\' && s[7] == 'u' &&
      s[2..6] == Hex4(0xD800 + (n - 0x10000) / 0x400) && s[8..12] == Hex4(0xDC00 + (n - 0x10000) % 0x400)
  {
    var n := c as int;
    var e := EscapeChar(c);
    var s := e + t;
    var h1, h2 := Hex4(0xD800 + (n - 0x10000) / 0x400), Hex4(0xDC00 + (n - 0x10000) % 0x400);
    assert e == "\\u" + h1 + "\\u" + h2;
    assert s[..12] == e;
  }

  /** A quoted string reads back as the text that was written, followed by whatever came after it. */
  lemma {:induction false} EscapeDecodes(x: string, rest: string)
    ensures DecodeString(Escape(x) + "\"" + rest) == Some((x, rest))
  {
    var s := Escape(x) + "\"" + rest;
    if |x| == 0 {
      assert s == "\"" + rest;
    } else {
      var e := EscapeChar(x[0]);
      var tail := Escape(x[1..]) + "\"" + rest;
      assert s == e + tail && s[|e|..] == tail by {
        Regroup(e, Escape(x[1..]), "\"", rest);
      }
      assert DecodeUnit(s) == Some((x[0], |e|)) by {
        EscapeCharDecodes(x[0], tail);
      }
      assert DecodeString(tail) == Some((x[1..], rest)) by {
        EscapeDecodes(x[1..], rest);
      }
      assert [x[0]] + x[1..] == x;
    }
  }

  function Member(p: Pair): string
  {
    Quote(p.0) + ": " + Quote(p.1)
  }

  function Members(ps: seq<Pair>): string
  {
    if |ps| == 0 then ""
    else if |ps| == 1 then Member(ps[0])
    else Member(ps[0]) + ", " + Members(ps[1..])
  }

  /** `json.dumps(d, sort_keys=True)`. */
  function Encode(d: Dict): string
  {
    "{" + Members(SortByKey(d)) + "}"
  }

  /** The members of an object, from just after `{` or `, ` up to and including the closing `}`. */
  function DecodeMembers(s: string): (r: Option<seq<Pair>>)
    decreases |s|
  {
    if |s| == 0 || s[0] != '"' then None
    else match DecodeString(s[1..])
      case None => None
      case Some((k, afterKey)) =>
        if |afterKey| < 3 || afterKey[..3] != ": \"" then None
        else match DecodeString(afterKey[3..])
          case None => None
          case Some((v, afterValue)) =>
            if afterValue == "}" then Some([(k, v)])
            else if |afterValue| >= 2 && afterValue[..2] == ", " then
              match DecodeMembers(afterValue[2..])
              case None => None
              case Some(more) => Some([(k, v)] + more)
            else None
  }

  /**
   * `json.loads` on text laid out as `json.dumps` lays out a dict of strings;
   * the members become a dict in document order, a later duplicate winning.
   */
  function Decode(s: string): (r: Option<Dict>)
  {
    if s == "{}" then Some([])
    else if |s| > 0 && s[0] == '{' then
      match DecodeMembers(s[1..])
      case None => None
      case Some(ps) => Some(FromPairs(ps))
    else None
  }

  /** What the members reader does once it has read a key and a value. */
  function AfterMember(k: string, v: string, afterValue: string): Option<seq<Pair>>
    decreases |afterValue|, 1
  {
    if afterValue == "}" then Some([(k, v)])
    else if |afterValue| >= 2 && afterValue[..2] == ", " then
      match DecodeMembers(afterValue[2..])
      case None => None
      case Some(more) => Some([(k, v)] + more)
    else None
  }

  lemma DecodeMembersStep(s: string, k: string, afterKey: string, v: string, afterValue: string)
    requires |s| > 0 && s[0] == '"' && DecodeString(s[1..]) == Some((k, afterKey))
    requires |afterKey| >= 3 && afterKey[..3] == ": \"" && DecodeString(afterKey[3..]) == Some((v, afterValue))
    ensures DecodeMembers(s) == AfterMember(k, v, afterValue)
  {
  }

  lemma MemberShape(k: string, v: string, tail: string)
    ensures |Member((k, v)) + tail| > 0 && (Member((k, v)) + tail)[0] == '"'
    ensures (Member((k, v)) + tail)[1..] == Escape(k) + "\"" + (": \"" + Escape(v) + "\"" + tail)
  {
    var rest := ": " + ("\"" + (Escape(v) + ("\"" + tail)));
    MemberSplit(k, v, tail);
    AfterKeySplit(v, tail);
    Assoc(Escape(k), "\"", rest);
  }

  lemma MemberSplit(k: string, v: string, tail: string)
    ensures Member((k, v)) + tail == "\"" + (Escape(k) + ("\"" + (": " + ("\"" + (Escape(v) + ("\"" + tail))))))
  {
    var q, ek, ev, qk, qv := "\"", Escape(k), Escape(v), Quote(k), Quote(v);
    var w := ": " + (qv + tail);
    assert Member((k, v)) + tail == qk + w by {
      Assoc(qk + ": ", qv, tail);
      Assoc(qk, ": ", qv + tail);
    }
    assert qk + w == q + (ek + (q + w)) by {
      Assoc(q + ek, q, w);
      Assoc(q, ek, q + w);
    }
    assert qv + tail == q + (ev + (q + tail)) by {
      Assoc(q + ev, q, tail);
      Assoc(q, ev, q + tail);
    }
  }

  lemma AfterKeySplit(v: string, tail: string)
    ensures ": \"" + Escape(v) + "\"" + tail == ": " + ("\"" + (Escape(v) + ("\"" + tail)))
  {
    var q, ev := "\"", Escape(v);
    Assoc(": \"" + ev, q, tail);
    Assoc(": \"", ev, q + tail);
    assert ": \"" == ": " + q;
    Assoc(": ", q, ev + (q + tail));
  }

  lemma Assoc(a: string, b: string, c: string)
    ensures a + b + c == a + (b + c)
  {
  }

  lemma ColonShape(v: string, tail: string)
    ensures |": \"" + Escape(v) + "\"" + tail| >= 3
    ensures (": \"" + Escape(v) + "\"" + tail)[..3] == ": \""
    ensures (": \"" + Escape(v) + "\"" + tail)[3..] == Escape(v) + "\"" + tail
  {
  }

  /** One member read back: its key and value, then whatever the text after it decides. */
  lemma MemberDecodes(k: string, v: string, tail: string)
    ensures DecodeMembers(Member((k, v)) + tail) == AfterMember(k, v, tail)
  {
    var afterKey := ": \"" + Escape(v) + "\"" + tail;
    MemberShape(k, v, tail);
    ColonShape(v, tail);
    EscapeDecodes(k, afterKey);
    EscapeDecodes(v, tail);
    DecodeMembersStep(Member((k, v)) + tail, k, afterKey, v, tail);
  }

  lemma AfterMemberClose(k: string, v: string)
    ensures AfterMember(k, v, "}") == Some([(k, v)])
  {
  }

  lemma AfterMemberComma(k: string, v: string, rest: string, more: seq<Pair>)
    requires DecodeMembers(rest) == Some(more)
    ensures AfterMember(k, v, ", " + rest) == Some([(k, v)] + more)
  {
    assert (", " + rest)[..2] == ", " && (", " + rest)[2..] == rest;
  }

  lemma MembersShape(ps: seq<Pair>)
    requires |ps| > 1
    ensures Members(ps) + "}" == Member(ps[0]) + (", " + (Members(ps[1..]) + "}"))
  {
    var m, r := Member(ps[0]), Members(ps[1..]);
    assert Members(ps) == m + ", " + r;
    Regroup(m, ", ", r, "}");
  }

  lemma Regroup(a: string, b: string, c: string, d: string)
    ensures a + b + c + d == a + (b + (c + d))
  {
  }

  /** The members of a non-empty sequence, written and closed, read back as those members. */
  lemma {:induction false} MembersDecode(ps: seq<Pair>)
    requires |ps| > 0
    ensures DecodeMembers(Members(ps) + "}") == Some(ps)
  {
    var k, v := ps[0].0, ps[0].1;
    assert ps[0] == (k, v);
    if |ps| == 1 {
      MemberDecodes(k, v, "}");
      AfterMemberClose(k, v);
      assert ps == [(k, v)];
    } else {
      var rest := Members(ps[1..]) + "}";
      MembersShape(ps);
      assert DecodeMembers(rest) == Some(ps[1..]) by {
        MembersDecode(ps[1..]);
      }
      assert DecodeMembers(Member((k, v)) + (", " + rest)) == Some([(k, v)] + ps[1..]) by {
        MemberDecodes(k, v, ", " + rest);
        AfterMemberComma(k, v, rest, ps[1..]);
      }
      assert ps == [(k, v)] + ps[1..];
    }
  }

  lemma EncodeShape(d: Dict)
    ensures |Encode(d)| > 0 && Encode(d)[0] == '{'
    ensures Encode(d)[1..] == Members(SortByKey(d)) + "}"
    ensures |SortByKey(d)| == 0 <==> Encode(d) == "{}"
  {
    var m := Members(SortByKey(d));
    assert |SortByKey(d)| > 0 ==> |m| > 0;
    assert Encode(d) == "{" + (m + "}");
  }

  /** Reading the text back gives the dict's pairs in key order. */
  lemma DecodeEncode(d: Dict)
    ensures Decode(Encode(d)) == Some(SortByKey(d))
  {
    var sorted := SortByKey(d);
    assert KeysUnique(sorted) by {
      SortByKeySorted(d);
      SortedKeysUnique(sorted);
    }
    EncodeShape(d);
    if |sorted| > 0 {
      assert DecodeMembers(Encode(d)[1..]) == Some(sorted) by {
        MembersDecode(sorted);
      }
      assert FromPairs(sorted) == sorted by {
        FromPairsDistinct(sorted);
      }
    }
  }

  /**
   * The canonical text identifies a dict: two dicts get the same text exactly
   * when they hold the same pairs, in whatever insertion order.
   */
  lemma EncodeCanonical(d1: Dict, d2: Dict)
    ensures Encode(d1) == Encode(d2) <==> ToMap(d1) == ToMap(d2)
  {
    SortByKeyCanonical(d1, d2);
    if Encode(d1) == Encode(d2) {
      DecodeEncode(d1);
      DecodeEncode(d2);
    }
  }
}
