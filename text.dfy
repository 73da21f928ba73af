/**
 * Character-level building blocks the handlers and the signer share: bytes,
 * the UTF-8 encoding done by `TextEncoder`, lowercase hex as produced by
 * `b.toString(16).padStart(2, '0')`, decimal rendering of integers as done by
 * `Number.prototype.toString`, ASCII lowercasing and string ordering.
 */
module Text {
  import opened Wrappers

  type byte = x: int | 0 <= x < 256

  predicate IsDigit(c: char) { '0' <= c <= '9' }
  predicate IsAsciiAlnum(c: char) { 'a' <= c <= 'z' || 'A' <= c <= 'Z' || IsDigit(c) }
  predicate IsLowerHexDigit(c: char) { IsDigit(c) || 'a' <= c <= 'f' }

  predicate AllDigits(s: string) { forall i :: 0 <= i < |s| ==> IsDigit(s[i]) }
  predicate AllAsciiAlnum(s: string) { forall i :: 0 <= i < |s| ==> IsAsciiAlnum(s[i]) }
  predicate IsLowerHex(s: string) { forall i :: 0 <= i < |s| ==> IsLowerHexDigit(s[i]) }
  predicate IsAscii(s: string) { forall i :: 0 <= i < |s| ==> s[i] as int < 128 }

  /** `s.startsWith(prefix)` */
  predicate StartsWith(s: string, prefix: string) {
    |prefix| <= |s| && s[..|prefix|] == prefix
  }

  /** `s.substring(0, n)` for a non-negative `n`: at most the first `n` characters. */
  function Prefix(s: string, n: nat): (r: string)
    ensures |r| == if |s| < n then |s| else n
    ensures StartsWith(s, r)
  {
    if |s| < n then s else s[..n]
  }

  // ---------------------------------------------------------------- UTF-8

  /** The UTF-8 encoding of one Unicode scalar value. */
  function Utf8Char(c: char): (bs: seq<byte>)
    ensures 1 <= |bs| <= 4
    ensures |bs| == 1 <==> c as int < 128
    ensures |bs| == 1 ==> bs[0] == c as int
  {
    var n := c as int;
    if n < 0x80 then [n]
    else if n < 0x800 then [0xC0 + n / 64, 0x80 + n % 64]
    else if n < 0x1_0000 then [0xE0 + n / 4096, 0x80 + (n / 64) % 64, 0x80 + n % 64]
    else [0xF0 + n / 262144, 0x80 + (n / 4096) % 64, 0x80 + (n / 64) % 64, 0x80 + n % 64]
  }

  /** `new TextEncoder().encode(s)` */
  function Utf8(s: string): seq<byte>
  {
    if s == [] then [] else Utf8Char(s[0]) + Utf8(s[1..])
  }

  lemma {:induction false} Utf8Append(a: string, b: string)
    ensures Utf8(a + b) == Utf8(a) + Utf8(b)
  {
    if a == [] {
      assert a + b == b;
    } else {
      assert (a + b)[1..] == a[1..] + b;
      Utf8Append(a[1..], b);
    }
  }

  /** On ASCII text the encoding is one byte per character, the character's code. */
  lemma {:induction false} Utf8OfAscii(s: string)
    requires IsAscii(s)
    ensures |Utf8(s)| == |s|
    ensures forall i :: 0 <= i < |s| ==> Utf8(s)[i] == s[i] as int
  {
    if s != [] {
      Utf8OfAscii(s[1..]);
      assert Utf8(s) == [s[0] as int] + Utf8(s[1..]);
    }
  }

  /** Any character outside ASCII encodes to more bytes than characters. */
  lemma {:induction false} Utf8Length(s: string)
    ensures |Utf8(s)| >= |s|
    ensures |Utf8(s)| == |s| <==> IsAscii(s)
  {
    if s != [] {
      Utf8Length(s[1..]);
      assert IsAscii(s) <==> s[0] as int < 128 && IsAscii(s[1..]) by {
        if IsAscii(s) {
          forall i | 0 <= i < |s[1..]| ensures s[1..][i] as int < 128 {
            assert s[1..][i] == s[i + 1];
          }
        }
      }
    }
  }

  // ---------------------------------------------------------------- hex

  const LowerHexDigits: string := "0123456789abcdef"
  const UpperHexDigits: string := "0123456789ABCDEF"

  /** `b.toString(16).padStart(2, '0')` */
  function HexByte(b: byte): (s: string)
    ensures |s| == 2 && IsLowerHex(s)
  {
    [LowerHexDigits[b / 16], LowerHexDigits[b % 16]]
  }

  /** `Array.from(bytes).map(b => b.toString(16).padStart(2, '0')).join('')` */
  function Hex(bs: seq<byte>): (s: string)
    ensures |s| == 2 * |bs|
    ensures IsLowerHex(s)
  {
    if bs == [] then [] else HexByte(bs[0]) + Hex(bs[1..])
  }

  /** The value of a hex digit of either case (as `parseInt(c, 16)` reads it). */
  function HexDigitValue(c: char): (v: Option<nat>)
    ensures v.Some? ==> v.value < 16
    ensures v.Some? <==> IsDigit(c) || 'a' <= c <= 'f' || 'A' <= c <= 'F'
  {
    if IsDigit(c) then Some(c as int - '0' as int)
    else if 'a' <= c <= 'f' then Some(c as int - 'a' as int + 10)
    else if 'A' <= c <= 'F' then Some(c as int - 'A' as int + 10)
    else None
  }

  /** Reads a string of hex digit pairs back into bytes. */
  function HexDecode(s: string): Option<seq<byte>>
    decreases |s|
  {
    if s == [] then Some([])
    else if |s| < 2 then None
    else
      match (HexDigitValue(s[0]), HexDigitValue(s[1]), HexDecode(s[2..]))
      case (Some(hi), Some(lo), Some(rest)) => Some([hi * 16 + lo] + rest)
      case _ => None
  }

  lemma LowerHexDigitValue(v: nat)
    requires v < 16
    ensures HexDigitValue(LowerHexDigits[v]) == Some(v)
    ensures HexDigitValue(UpperHexDigits[v]) == Some(v)
  {
  }

  /** Two hex digits in front of a decodable string decode to one more byte. */
  lemma HexDecodeOneByte(b: byte, more: string, r: seq<byte>)
    requires HexDecode(more) == Some(r)
    ensures HexDecode(HexByte(b) + more) == Some([b] + r)
  {
    var t := HexByte(b) + more;
    LowerHexDigitValue(b / 16);
    LowerHexDigitValue(b % 16);
    assert t[0] == LowerHexDigits[b / 16] && t[1] == LowerHexDigits[b % 16];
    assert t[2..] == more;
  }

  /** Hex encoding is decoded back to the bytes it came from. */
  lemma {:induction false} HexRoundTrip(bs: seq<byte>)
    ensures HexDecode(Hex(bs)) == Some(bs)
  {
    if bs != [] {
      HexRoundTrip(bs[1..]);
      HexDecodeOneByte(bs[0], Hex(bs[1..]), bs[1..]);
      assert [bs[0]] + bs[1..] == bs;
    }
  }

  /** A lowercase hex string never begins with `"AWS4"`: 'A' is not a lowercase hex digit. */
  lemma LowerHexNotAws4(s: string)
    requires IsLowerHex(s)
    ensures !StartsWith(s, "AWS4")
  {
    if |s| >= 4 {
      assert s[..4][0] == s[0];
      assert "AWS4"[0] == 'A';
    }
  }

  lemma LowerHexIsAscii(s: string)
    requires IsLowerHex(s)
    ensures IsAscii(s)
  {
  }

  // ---------------------------------------------------------------- decimal

  function DigitChar(d: nat): (c: char)
    requires d < 10
    ensures IsDigit(c)
  {
    "0123456789"[d]
  }

  /** Decimal rendering of a natural number, most significant digit first. */
  function NatDecimal(n: nat): (s: string)
    ensures |s| >= 1 && AllDigits(s)
  {
    if n < 10 then [DigitChar(n)] else NatDecimal(n / 10) + [DigitChar(n % 10)]
  }

  /** `n.toString()` for an integer-valued number below 10^21. */
  function IntDecimal(n: int): string
  {
    if n < 0 then "-" + NatDecimal(-n) else NatDecimal(n)
  }

  /** The number a string of decimal digits denotes. */
  function DigitsValue(s: string): nat
    requires AllDigits(s)
  {
    if s == [] then 0
    else DigitsValue(s[..|s| - 1]) * 10 + (s[|s| - 1] as int - '0' as int)
  }

  /** The integer a decimal rendering denotes, with an optional leading minus. */
  function ParseInt(s: string): Option<int>
  {
    if |s| >= 1 && s[0] == '-' && AllDigits(s[1..]) then Some(0 - DigitsValue(s[1..]))
    else if AllDigits(s) then Some(DigitsValue(s))
    else None
  }

  /** The rendering has no superfluous leading zero and reads back as `n`. */
  lemma {:induction false} NatDecimalRoundTrip(n: nat)
    ensures DigitsValue(NatDecimal(n)) == n
    ensures NatDecimal(n)[0] != '0' || n == 0
  {
    var s := NatDecimal(n);
    if n >= 10 {
      NatDecimalRoundTrip(n / 10);
      assert s[..|s| - 1] == NatDecimal(n / 10);
    }
  }

  /** Decimal rendering of an integer reads back as that integer. */
  lemma IntDecimalRoundTrip(n: int)
    ensures ParseInt(IntDecimal(n)) == Some(n)
  {
    if n < 0 {
      var m: nat := -n;
      var d := NatDecimal(m);
      NatDecimalRoundTrip(m);
      var s := "-" + d;
      assert IntDecimal(n) == s;
      assert s[1..] == d;
      assert ParseInt(s) == Some(0 - DigitsValue(d));
    } else {
      NatDecimalRoundTrip(n);
      var s := NatDecimal(n);
      assert IntDecimal(n) == s;
      assert ParseInt(s) == Some(DigitsValue(s));
    }
  }

  // ---------------------------------------------------------------- case, order

  function AsciiLowerChar(c: char): (d: char)
    ensures IsAsciiAlnum(c) ==> IsAsciiAlnum(d) && !('A' <= d <= 'Z')
  {
    if 'A' <= c <= 'Z' then (c as int + 32) as char else c
  }

  /** `s.toLowerCase()` restricted to ASCII letters (the only letters it meets here). */
  function AsciiLower(s: string): (r: string)
    ensures |r| == |s|
    ensures forall i :: 0 <= i < |s| ==> r[i] == AsciiLowerChar(s[i])
  {
    if s == [] then [] else [AsciiLowerChar(s[0])] + AsciiLower(s[1..])
  }

  /** Strict lexicographic order on character codes, the order of the default `Array.prototype.sort`. */
  predicate LexLess(a: string, b: string)
  {
    if a == [] then b != []
    else if b == [] then false
    else a[0] < b[0] || (a[0] == b[0] && LexLess(a[1..], b[1..]))
  }

  /** Any two strings are ordered one way or the other, or are equal. */
  lemma {:induction false} LexTotal(a: string, b: string)
    ensures LexLess(a, b) || a == b || LexLess(b, a)
  {
    if a != [] && b != [] && a[0] == b[0] {
      LexTotal(a[1..], b[1..]);
      if a[1..] == b[1..] {
        assert a == [a[0]] + a[1..] && b == [b[0]] + b[1..];
      }
    }
  }

  lemma {:induction false} LexAsymmetric(a: string, b: string)
    requires LexLess(a, b)
    ensures !LexLess(b, a)
  {
    if a != [] && b != [] && a[0] == b[0] {
      LexAsymmetric(a[1..], b[1..]);
    }
  }

  lemma {:induction false} LexIrreflexive(a: string)
    ensures !LexLess(a, a)
  {
    if a != [] {
      LexIrreflexive(a[1..]);
    }
  }

  /** Two strings that agree on a prefix and then differ are ordered by the first differing character. */
  lemma {:induction false} LexLessAfterCommonPrefix(p: string, x: char, y: char, a: string, b: string)
    requires x < y
    ensures LexLess(p + [x] + a, p + [y] + b)
  {
    if p != [] {
      assert (p + [x] + a)[1..] == p[1..] + [x] + a;
      assert (p + [y] + b)[1..] == p[1..] + [y] + b;
      LexLessAfterCommonPrefix(p[1..], x, y, a, b);
    }
  }
}
