/**
 * `encodeURIComponent` as ECMAScript defines it: every character outside the
 * unreserved set is written as the percent-escaped bytes of its UTF-8
 * encoding, with uppercase hex digits (section 2.1 of RFC 3986).
 */
module Uri {
  import opened Wrappers
  import opened Text

  /** The characters `encodeURIComponent` leaves alone: ASCII letters, digits and `-_.!~*'()`. */
  predicate IsUriUnreserved(c: char) {
    IsAsciiAlnum(c) || c in "-_.!~*'()"
  }

  predicate AllUnreserved(s: string) {
    forall i :: 0 <= i < |s| ==> IsUriUnreserved(s[i])
  }

  /** Each byte written as `%` and two uppercase hex digits. */
  function PercentBytes(bs: seq<byte>): (s: string)
    ensures |s| == 3 * |bs|
  {
    if bs == [] then []
    else ['%', UpperHexDigits[bs[0] / 16], UpperHexDigits[bs[0] % 16]] + PercentBytes(bs[1..])
  }

  function EncodeChar(c: char): (s: string)
    ensures |s| >= 1
    ensures |s| == 1 <==> IsUriUnreserved(c)
  {
    if IsUriUnreserved(c) then [c] else PercentBytes(Utf8Char(c))
  }

  /** `encodeURIComponent(s)` */
  function EncodeUriComponent(s: string): (r: string)
  {
    if s == [] then [] else EncodeChar(s[0]) + EncodeUriComponent(s[1..])
  }

  /** Each character is encoded on its own, so encoding distributes over concatenation. */
  lemma {:induction false} EncodeAppend(a: string, b: string)
    ensures EncodeUriComponent(a + b) == EncodeUriComponent(a) + EncodeUriComponent(b)
  {
    if a == [] {
      assert a + b == b;
    } else {
      assert (a + b)[1..] == a[1..] + b;
      EncodeAppend(a[1..], b);
    }
  }

  /** Encoding never shortens, and leaves a string unchanged exactly when every character is unreserved. */
  lemma {:induction false} EncodeLength(s: string)
    ensures |EncodeUriComponent(s)| >= |s|
    ensures |EncodeUriComponent(s)| == |s| <==> AllUnreserved(s)
  {
    if s != [] {
      EncodeLength(s[1..]);
      assert AllUnreserved(s) <==> IsUriUnreserved(s[0]) && AllUnreserved(s[1..]) by {
        if AllUnreserved(s) {
          forall i | 0 <= i < |s[1..]| ensures IsUriUnreserved(s[1..][i]) {
            assert s[1..][i] == s[i + 1];
          }
        }
      }
    }
  }

  lemma {:induction false} EncodeIdentity(s: string)
    ensures EncodeUriComponent(s) == s <==> AllUnreserved(s)
  {
    EncodeLength(s);
    if AllUnreserved(s) && s != [] {
      EncodeIdentity(s[1..]);
      assert AllUnreserved(s[1..]) by {
        forall i | 0 <= i < |s[1..]| ensures IsUriUnreserved(s[1..][i]) {
          assert s[1..][i] == s[i + 1];
        }
      }
      assert EncodeChar(s[0]) == [s[0]];
    }
  }

  /** A `/` is escaped as `%2F`. */
  lemma EncodeSlash()
    ensures EncodeChar('/') == "%2F"
  {
    assert Utf8Char('/') == [47];
  }

  /** Percent-decoding to bytes, as `decodeURIComponent` reads its input before UTF-8 decoding it. */
  function PercentDecode(t: string): Option<seq<byte>>
    decreases |t|
  {
    if t == [] then Some([])
    else if t[0] == '%' then
      if |t| < 3 || HexDigitValue(t[1]).None? || HexDigitValue(t[2]).None? then None
      else
        var rest := PercentDecode(t[3..]);
        if rest.None? then None
        else Some([HexDigitValue(t[1]).value * 16 + HexDigitValue(t[2]).value] + rest.value)
    else
      var rest := PercentDecode(t[1..]);
      if rest.None? then None else Some(Utf8Char(t[0]) + rest.value)
  }

  lemma DecodeOneEscape(b: byte, more: string, r: seq<byte>)
    requires PercentDecode(more) == Some(r)
    ensures PercentDecode(['%', UpperHexDigits[b / 16], UpperHexDigits[b % 16]] + more) == Some([b] + r)
  {
    var t := ['%', UpperHexDigits[b / 16], UpperHexDigits[b % 16]] + more;
    LowerHexDigitValue(b / 16);
    LowerHexDigitValue(b % 16);
    assert t[3..] == more;
  }

  /** One more escaped byte in front decodes to one more byte. */
  lemma DecodePercentBytesStep(bs: seq<byte>, rest: string, tail: seq<byte>)
    requires bs != []
    requires PercentDecode(PercentBytes(bs[1..]) + rest) == Some(bs[1..] + tail)
    ensures PercentDecode(PercentBytes(bs) + rest) == Some(bs + tail)
  {
    var b := bs[0];
    var head := ['%', UpperHexDigits[b / 16], UpperHexDigits[b % 16]];
    var more := PercentBytes(bs[1..]) + rest;
    assert PercentBytes(bs) + rest == head + more by {
      assert PercentBytes(bs) == head + PercentBytes(bs[1..]);
    }
    DecodeOneEscape(b, more, bs[1..] + tail);
    assert [b] + (bs[1..] + tail) == bs + tail;
  }

  lemma {:induction false} DecodePercentBytes(bs: seq<byte>, rest: string, tail: seq<byte>)
    requires PercentDecode(rest) == Some(tail)
    ensures PercentDecode(PercentBytes(bs) + rest) == Some(bs + tail)
  {
    if bs == [] {
      assert PercentBytes(bs) + rest == rest && bs + tail == tail;
    } else {
      DecodePercentBytes(bs[1..], rest, tail);
      DecodePercentBytesStep(bs, rest, tail);
    }
  }

  /** Percent-decoding the encoding gives back the UTF-8 bytes of the original string. */
  lemma {:induction false} DecodeEncode(s: string)
    ensures PercentDecode(EncodeUriComponent(s)) == Some(Utf8(s))
  {
    if s != [] {
      var c := s[0];
      var rest := EncodeUriComponent(s[1..]);
      DecodeEncode(s[1..]);
      if IsUriUnreserved(c) {
        var t := [c] + rest;
        assert t[1..] == rest;
        assert PercentDecode(t) == Some(Utf8Char(c) + Utf8(s[1..]));
      } else {
        DecodePercentBytes(Utf8Char(c), rest, Utf8(s[1..]));
      }
    }
  }

  /** Every `%` in an encoding introduces two uppercase hex digits; every other character is unreserved. */
  predicate IsEncoded(t: string)
    decreases |t|
  {
    if t == [] then true
    else if t[0] == '%' then
      |t| >= 3 && t[1] in UpperHexDigits && t[2] in UpperHexDigits && IsEncoded(t[3..])
    else IsUriUnreserved(t[0]) && IsEncoded(t[1..])
  }

  lemma {:induction false} PercentBytesEncoded(bs: seq<byte>, rest: string)
    requires IsEncoded(rest)
    ensures IsEncoded(PercentBytes(bs) + rest)
  {
    if bs != [] {
      var t := PercentBytes(bs) + rest;
      PercentBytesEncoded(bs[1..], rest);
      assert t[3..] == PercentBytes(bs[1..]) + rest;
    } else {
      assert PercentBytes(bs) + rest == rest;
    }
  }

  lemma {:induction false} EncodeIsEncoded(s: string)
    ensures IsEncoded(EncodeUriComponent(s))
  {
    if s != [] {
      EncodeIsEncoded(s[1..]);
      var rest := EncodeUriComponent(s[1..]);
      if IsUriUnreserved(s[0]) {
        assert ([s[0]] + rest)[1..] == rest;
      } else {
        PercentBytesEncoded(Utf8Char(s[0]), rest);
      }
    }
  }
}
