/**
 * The percent-encoding `encode_a` used to sign moderation requests
 * (generate.py:154-160): `quote_plus(str(s))` followed by three replacements.
 *
 * `quote_plus` encodes its argument to UTF-8 and writes each byte as itself when it
 * is one of A-Z, a-z, 0-9, `_`, `.`, `-`, `~`, as `+` when it is a space, and as
 * `%XX` (upper-case hexadecimal) otherwise. The replacements then turn `+` into
 * `%20`, `*` into `%2A` and `%7E` into `~`. The result is the percent-encoding of
 * section 2.1 of RFC 3986 that leaves exactly the unreserved set of section 2.3
 * literal; the last two replacements never fire.
 */
module Encoding {
  import opened Wrappers
  import opened Seqs

  type byte = x: int | 0 <= x < 256

  /** The UTF-8 encoding of one Unicode scalar value (section 3 of RFC 3629). */
  function Utf8(c: char): (bs: seq<byte>)
    ensures 1 <= |bs| <= 4
    ensures bs[0] < 0x80 <==> c as int < 0x80
    ensures forall k :: 1 <= k < |bs| ==> 0x80 <= bs[k] < 0xC0
    ensures c as int >= 0x80 ==> forall k :: 0 <= k < |bs| ==> bs[k] >= 0x80
  {
    var n := c as int;
    if n < 0x80 then [n]
    else if n < 0x800 then [0xC0 + n / 64, 0x80 + n % 64]
    else if n < 0x10000 then [0xE0 + n / 4096, 0x80 + (n / 64) % 64, 0x80 + n % 64]
    else [0xF0 + n / 262144, 0x80 + (n / 4096) % 64, 0x80 + (n / 64) % 64, 0x80 + n % 64]
  }

  /** `str.encode("utf-8")`. */
  function Utf8Encode(s: string): (r: seq<byte>)
  {
    if s == [] then [] else Utf8(s[0]) + Utf8Encode(s[1..])
  }

  function AsChar(n: int): (r: Option<char>)
  {
    if 0 <= n < 0xD800 || 0xE000 <= n < 0x11_0000 then Some(n as char) else None
  }

  predicate Continuation(b: byte) { 0x80 <= b < 0xC0 }

  /** Decodes the first character of `bs`; returns it with the number of bytes it took. */
  function DecodeFirst(bs: seq<byte>): (r: Option<(char, nat)>)
    requires bs != []
    ensures r.Some? ==> 1 <= r.value.1 <= |bs|
  {
    var b0: int := bs[0];
    if b0 < 0x80 then Some((b0 as char, 1))
    else if 0xC0 <= b0 < 0xE0 && |bs| >= 2 && Continuation(bs[1]) then
      match AsChar((b0 - 0xC0) * 64 + (bs[1] as int - 0x80))
      case Some(c) => Some((c, 2))
      case None => None
    else if 0xE0 <= b0 < 0xF0 && |bs| >= 3 && Continuation(bs[1]) && Continuation(bs[2]) then
      match AsChar(((b0 - 0xE0) * 64 + (bs[1] as int - 0x80)) * 64 + (bs[2] as int - 0x80))
      case Some(c) => Some((c, 3))
      case None => None
    else if 0xF0 <= b0 < 0xF8 && |bs| >= 4 && Continuation(bs[1]) && Continuation(bs[2]) && Continuation(bs[3]) then
      match AsChar((((b0 - 0xF0) * 64 + (bs[1] as int - 0x80)) * 64 + (bs[2] as int - 0x80)) * 64 + (bs[3] as int - 0x80))
      case Some(c) => Some((c, 4))
      case None => None
    else None
  }

  /** `bytes.decode("utf-8")`, as far as it is needed to undo `Utf8Encode`. */
  function Utf8Decode(bs: seq<byte>): (r: Option<string>)
    decreases |bs|
  {
    if bs == [] then Some([])
    else match DecodeFirst(bs)
      case None => None
      case Some((c, n)) =>
        match Utf8Decode(bs[n..])
        case None => None
        case Some(rest) => Some([c] + rest)
  }

  lemma DivDiv64(n: nat)
    ensures (n / 64) / 64 == n / 4096
    ensures (n / 4096) / 64 == n / 262144
  {
    var q, r := n / 64, n % 64;
    assert n == 4096 * (q / 64) + (64 * (q % 64) + r);
    var q2, r2 := n / 4096, n % 4096;
    assert n == 262144 * (q2 / 64) + (4096 * (q2 % 64) + r2);
  }

  lemma DecodeTwo(c: char, bs: seq<byte>)
    requires 0x80 <= c as int < 0x800 && |bs| >= 2
    requires bs[0] == 0xC0 + c as int / 64 && bs[1] == 0x80 + c as int % 64
    ensures DecodeFirst(bs) == Some((c, 2))
  {
    assert (bs[0] as int - 0xC0) * 64 + (bs[1] as int - 0x80) == c as int;
  }

  lemma DecodeThree(c: char, bs: seq<byte>)
    requires 0x800 <= c as int < 0x10000 && |bs| >= 3
    requires bs[0] == 0xE0 + c as int / 4096 && bs[1] == 0x80 + (c as int / 64) % 64
    requires bs[2] == 0x80 + c as int % 64
    ensures DecodeFirst(bs) == Some((c, 3))
  {
    var n := c as int;
    DivDiv64(n);
    var hi: int := (bs[0] as int - 0xE0) * 64 + (bs[1] as int - 0x80);
    assert hi == n / 64;
    assert hi * 64 + (bs[2] as int - 0x80) == n;
  }

  lemma DecodeFour(c: char, bs: seq<byte>)
    requires 0x10000 <= c as int && |bs| >= 4
    requires bs[0] == 0xF0 + c as int / 262144 && bs[1] == 0x80 + (c as int / 4096) % 64
    requires bs[2] == 0x80 + (c as int / 64) % 64 && bs[3] == 0x80 + c as int % 64
    ensures DecodeFirst(bs) == Some((c, 4))
  {
    var n := c as int;
    DivDiv64(n);
    DivDiv64(n / 64);
    var top: int := (bs[0] as int - 0xF0) * 64 + (bs[1] as int - 0x80);
    assert top == n / 4096;
    var hi: int := top * 64 + (bs[2] as int - 0x80);
    assert hi == n / 64;
    assert hi * 64 + (bs[3] as int - 0x80) == n;
  }

  lemma DecodeFirstUtf8(c: char, rest: seq<byte>)
    ensures DecodeFirst(Utf8(c) + rest) == Some((c, |Utf8(c)|))
  {
    var n := c as int;
    var bs := Utf8(c) + rest;
    if n < 0x80 {
    } else if n < 0x800 {
      DecodeTwo(c, bs);
    } else if n < 0x10000 {
      DecodeThree(c, bs);
    } else {
      DecodeFour(c, bs);
    }
  }

  /** Decoding undoes encoding, so distinct strings have distinct UTF-8 encodings. */
  lemma {:induction false} Utf8RoundTrip(s: string)
    ensures Utf8Decode(Utf8Encode(s)) == Some(s)
    decreases |s|
  {
    if s != [] {
      var bs := Utf8Encode(s);
      DecodeFirstUtf8(s[0], Utf8Encode(s[1..]));
      assert bs[|Utf8(s[0])|..] == Utf8Encode(s[1..]);
      Utf8RoundTrip(s[1..]);
      assert [s[0]] + s[1..] == s;
    }
  }

  lemma {:induction false} Utf8EncodeAppend(s: string, t: string)
    ensures Utf8Encode(s + t) == Utf8Encode(s) + Utf8Encode(t)
    decreases |s|
  {
    if s != [] {
      assert (s + t)[1..] == s[1..] + t;
      Utf8EncodeAppend(s[1..], t);
    } else {
      assert s + t == t;
    }
  }

  /** The unreserved bytes of section 2.3 of RFC 3986, which are also `quote`'s always-safe set. */
  predicate Unreserved(b: byte)
  {
    (0x41 <= b <= 0x5A) || (0x61 <= b <= 0x7A) || (0x30 <= b <= 0x39)
    || b == 0x2D || b == 0x2E || b == 0x5F || b == 0x7E
  }

  function HexDigit(d: int): (r: char)
    requires 0 <= d < 16
  {
    if d < 10 then ('0' as int + d) as char else ('A' as int + d - 10) as char
  }

  function HexValue(c: char): (r: Option<int>)
  {
    if '0' <= c <= '9' then Some(c as int - '0' as int)
    else if 'A' <= c <= 'F' then Some(c as int - 'A' as int + 10)
    else None
  }

  /** `%XX` with two upper-case hexadecimal digits. */
  function Escape(b: byte): (r: string)
  {
    ['%', HexDigit(b / 16), HexDigit(b % 16)]
  }

  /** What `quote_plus` writes for one byte. */
  function QuoteByte(b: byte): (r: string)
  {
    if Unreserved(b) then [b as char]
    else if b == 0x20 then "+"
    else Escape(b)
  }

  function QuoteBytes(bs: seq<byte>): (r: string)
  {
    if bs == [] then [] else QuoteByte(bs[0]) + QuoteBytes(bs[1..])
  }

  /** `urllib.parse.quote_plus(s)` with its defaults (`safe=''`, UTF-8). */
  function QuotePlus(s: string): (r: string)
  {
    QuoteBytes(Utf8Encode(s))
  }

  /** `s.replace(pat, rep)`: every occurrence, scanning left to right, without overlaps. */
  function Replace(s: string, pat: string, rep: string): (r: string)
    requires pat != []
    decreases |s|
  {
    if |s| < |pat| then s
    else if s[..|pat|] == pat then rep + Replace(s[|pat|..], pat, rep)
    else [s[0]] + Replace(s[1..], pat, rep)
  }

  /** `encode_a` (generate.py:154-160). */
  function EncodeA(s: string): (r: string)
  {
    Replace(Replace(Replace(QuotePlus(s), "+", "%20"), "*", "%2A"), "%7E", "~")
  }

  /** The reference: RFC 3986 percent-encoding of one byte, unreserved bytes kept literal. */
  function PercentEncodeByte(b: byte): (r: string)
  {
    if Unreserved(b) then [b as char] else Escape(b)
  }

  function PercentEncode(bs: seq<byte>): (r: string)
  {
    if bs == [] then [] else PercentEncodeByte(bs[0]) + PercentEncode(bs[1..])
  }

  /** The inverse of `PercentEncode`; `None` for text that `PercentEncode` never produces. */
  function PercentDecode(s: string): (r: Option<seq<byte>>)
    decreases |s|
  {
    if s == [] then Some([])
    else if s[0] == '%' then
      if |s| < 3 then None
      else match (HexValue(s[1]), HexValue(s[2]))
        case (Some(hi), Some(lo)) =>
          (match PercentDecode(s[3..])
           case Some(rest) => Some([hi * 16 + lo] + rest)
           case None => None)
        case _ => None
    else if s[0] as int < 0x80 && Unreserved(s[0] as int) then
      match PercentDecode(s[1..])
      case Some(rest) => Some([s[0] as int] + rest)
      case None => None
    else None
  }

  /** The inverse of `EncodeA`. */
  function DecodeA(s: string): (r: Option<string>)
  {
    match PercentDecode(s)
    case Some(bs) => Utf8Decode(bs)
    case None => None
  }

  lemma ReplaceHead(c: char, t: string, pat: string, rep: string)
    requires pat != [] && c != pat[0]
    ensures Replace([c] + t, pat, rep) == [c] + Replace(t, pat, rep)
  {
    var s := [c] + t;
    assert s[1..] == t;
    if |s| >= |pat| {
      assert s[..|pat|][0] != pat[0];
    }
  }

  /** Characters that cannot start `pat` pass through `Replace` unchanged. */
  lemma {:induction false} ReplaceKeep(p: string, t: string, pat: string, rep: string)
    requires pat != []
    requires forall i :: 0 <= i < |p| ==> p[i] != pat[0]
    ensures Replace(p + t, pat, rep) == p + Replace(t, pat, rep)
    decreases |p|
  {
    if p != [] {
      ReplaceKeep(p[1..], t, pat, rep);
      ReplaceHead(p[0], p[1..] + t, pat, rep);
      assert [p[0]] + (p[1..] + t) == p + t;
    } else {
      assert p + t == t;
    }
  }

  lemma HexDigitRange(d: int)
    requires 0 <= d < 16
    ensures HexValue(HexDigit(d)) == Some(d)
    ensures Unreserved(HexDigit(d) as int)
    ensures HexDigit(d) != '%'
  {
  }

  /** The `+` to `%20` replacement turns `quote_plus`'s output into RFC 3986 percent-encoding. */
  lemma {:induction false} PlusReplacement(bs: seq<byte>)
    ensures Replace(QuoteBytes(bs), "+", "%20") == PercentEncode(bs)
    decreases |bs|
  {
    if bs != [] {
      var b := bs[0];
      var t := QuoteBytes(bs[1..]);
      PlusReplacement(bs[1..]);
      if Unreserved(b) {
        ReplaceKeep(QuoteByte(b), t, "+", "%20");
      } else if b == 0x20 {
        var s := "+" + t;
        assert s[..1] == "+" && s[1..] == t;
      } else {
        HexDigitRange(b / 16);
        HexDigitRange(b % 16);
        ReplaceKeep(QuoteByte(b), t, "+", "%20");
      }
    }
  }

  /** No `*` survives `quote_plus`, so the `*` to `%2A` replacement never fires. */
  lemma {:induction false} StarReplacement(bs: seq<byte>)
    ensures Replace(PercentEncode(bs), "*", "%2A") == PercentEncode(bs)
    decreases |bs|
  {
    if bs != [] {
      var b := bs[0];
      StarReplacement(bs[1..]);
      if !Unreserved(b) {
        HexDigitRange(b / 16);
        HexDigitRange(b % 16);
      }
      ReplaceKeep(PercentEncodeByte(b), PercentEncode(bs[1..]), "*", "%2A");
    } else {
      assert Replace([], "*", "%2A") == [];
    }
  }

  /** `~` is never escaped, so the `%7E` to `~` replacement never fires. */
  lemma {:induction false} TildeReplacement(bs: seq<byte>)
    ensures Replace(PercentEncode(bs), "%7E", "~") == PercentEncode(bs)
    decreases |bs|
  {
    if bs != [] {
      var b := bs[0];
      var t := PercentEncode(bs[1..]);
      TildeReplacement(bs[1..]);
      if Unreserved(b) {
        ReplaceKeep(PercentEncodeByte(b), t, "%7E", "~");
      } else {
        var hi, lo := HexDigit(b / 16), HexDigit(b % 16);
        HexDigitRange(b / 16);
        HexDigitRange(b % 16);
        var s := ['%', hi, lo] + t;
        assert s[..3] == ['%', hi, lo];
        assert s[..3] != "%7E";
        assert s[1..] == [hi, lo] + t;
        ReplaceKeep([hi, lo], t, "%7E", "~");
      }
    } else {
      assert Replace([], "%7E", "~") == [];
    }
  }

  /** `encode_a` is RFC 3986 percent-encoding of the UTF-8 bytes: the three replacements reduce to `+` to `%20`. */
  lemma EncodeAIsPercentEncoding(s: string)
    ensures EncodeA(s) == PercentEncode(Utf8Encode(s))
  {
    var bs := Utf8Encode(s);
    PlusReplacement(bs);
    StarReplacement(bs);
    TildeReplacement(bs);
  }

  /** The characters percent-encoding can produce: `%` and unreserved ASCII characters. */
  predicate EncodedChar(c: char)
  {
    c == '%' || (c as int < 0x80 && Unreserved(c as int))
  }

  lemma {:induction false} PercentEncodeChars(bs: seq<byte>)
    ensures forall c :: c in PercentEncode(bs) ==> EncodedChar(c)
    decreases |bs|
  {
    if bs != [] {
      PercentEncodeChars(bs[1..]);
      var b := bs[0];
      if !Unreserved(b) {
        HexDigitRange(b / 16);
        HexDigitRange(b % 16);
      }
    }
  }

  lemma {:induction false} PercentEncodeAppend(a: seq<byte>, b: seq<byte>)
    ensures PercentEncode(a + b) == PercentEncode(a) + PercentEncode(b)
    decreases |a|
  {
    if a != [] {
      assert (a + b)[1..] == a[1..] + b;
      PercentEncodeAppend(a[1..], b);
    } else {
      assert a + b == b;
    }
  }

  lemma {:induction false} PercentRoundTrip(bs: seq<byte>)
    ensures PercentDecode(PercentEncode(bs)) == Some(bs)
    decreases |bs|
  {
    if bs != [] {
      var b := bs[0];
      var t := PercentEncode(bs[1..]);
      PercentRoundTrip(bs[1..]);
      if Unreserved(b) {
        var s := [b as char] + t;
        assert s[1..] == t;
      } else {
        HexDigitRange(b / 16);
        HexDigitRange(b % 16);
        var s := Escape(b) + t;
        assert s[3..] == t;
      }
      assert [b] + bs[1..] == bs;
    }
  }

  /** `encode_a` loses nothing: percent-decoding and UTF-8 decoding give the text back. */
  lemma EncodeARoundTrip(s: string)
    ensures DecodeA(EncodeA(s)) == Some(s)
  {
    EncodeAIsPercentEncoding(s);
    PercentRoundTrip(Utf8Encode(s));
    Utf8RoundTrip(s);
  }

  /**
   * What `encode_a` promises: never a `+` or a space in the output, only `%` and
   * unreserved characters; it is undone by `DecodeA`, so it is injective; and it
   * encodes a string piece by piece.
   */
  lemma EncodeASpec(s: string, t: string)
    ensures '+' !in EncodeA(s) && ' ' !in EncodeA(s) && '*' !in EncodeA(s)
    ensures forall c :: c in EncodeA(s) ==> EncodedChar(c)
    ensures DecodeA(EncodeA(s)) == Some(s)
    ensures EncodeA(s + t) == EncodeA(s) + EncodeA(t)
  {
    EncodeAIsPercentEncoding(s);
    EncodeAIsPercentEncoding(t);
    EncodeAIsPercentEncoding(s + t);
    PercentEncodeChars(Utf8Encode(s));
    EncodeARoundTrip(s);
    Utf8EncodeAppend(s, t);
    PercentEncodeAppend(Utf8Encode(s), Utf8Encode(t));
  }

  /** Distinct keys and values stay distinct after `encode_a`. */
  lemma EncodeAInjective(s: string, t: string)
    requires EncodeA(s) == EncodeA(t)
    ensures s == t
  {
    EncodeASpec(s, []);
    EncodeASpec(t, []);
  }

  lemma {:induction false} EscapesOnly(bs: seq<byte>, k: nat)
    requires forall j :: 0 <= j < |bs| ==> !Unreserved(bs[j])
    requires k < |bs|
    ensures |PercentEncode(bs)| == 3 * |bs|
    ensures PercentEncode(bs)[3 * k .. 3 * k + 3] == Escape(bs[k])
    decreases |bs|
  {
    if k == 0 {
      if |bs| > 1 {
        EscapesOnly(bs[1..], 0);
      }
    } else {
      EscapesOnly(bs[1..], k - 1);
    }
  }

  lemma EncodeAOfOneChar(c: char)
    ensures EncodeA([c]) == PercentEncode(Utf8(c))
  {
    EncodeAIsPercentEncoding([c]);
    assert [c][1..] == [];
    assert Utf8Encode([c]) == Utf8(c) + Utf8Encode([]);
    assert Utf8(c) + [] == Utf8(c);
  }

  /**
   * `encode_a` character by character: A-Z, a-z, 0-9 and `-_.~` are kept, a space
   * becomes `%20`, `*` becomes `%2A`, `/` becomes `%2F`.
   */
  lemma EncodeAOfChar(c: char)
    ensures c as int < 0x80 && Unreserved(c as int) ==> EncodeA([c]) == [c]
    ensures c == ' ' ==> EncodeA([c]) == "%20"
    ensures c == '*' ==> EncodeA([c]) == "%2A"
    ensures c == '/' ==> EncodeA([c]) == "%2F"
  {
    EncodeAOfOneChar(c);
    assert PercentEncode(Utf8(c)) == PercentEncodeByte(Utf8(c)[0]) + PercentEncode(Utf8(c)[1..]);
  }

  /** Any other character becomes the `%XX` escapes of its UTF-8 bytes, one escape per byte. */
  lemma EncodeAOfEscapedChar(c: char, k: nat)
    requires !(c as int < 0x80 && Unreserved(c as int))
    requires k < |Utf8(c)|
    ensures |EncodeA([c])| == 3 * |Utf8(c)|
    ensures EncodeA([c])[3 * k .. 3 * k + 3] == Escape(Utf8(c)[k])
  {
    EncodeAOfOneChar(c);
    EscapesOnly(Utf8(c), k);
  }
}
