/**
 * Presigned-URL generation for the S3-compatible object store: AWS Signature
 * Version 4 query-string authentication as the Workers code implements it.
 *
 * The model follows the code, not an idealised SigV4: the object path is not
 * percent-encoded, the host is not lowercased, and `hmac` chooses its output
 * representation by looking at its key, so that only the first key of the
 * chain is raw bytes and the later ones are lowercase hex text.
 */
module S3Signer {
  import opened Wrappers
  import opened Text
  import opened Uri

  // ---------------------------------------------------------------- primitives

  type Digest = s: seq<byte> | |s| == 32 witness seq(32, _ => 0)

  /**
   * The platform's SHA-256 (`crypto.subtle.digest`) and HMAC-SHA256
   * (`importKey` + `sign`), taken as given functions; `hmacSha256(key, message)`.
   */
  datatype Primitives = Primitives(sha256: seq<byte> -> Digest, hmacSha256: (seq<byte>, seq<byte>) -> Digest)

  datatype HttpMethod = GET | PUT | DELETE {
    function Name(): string {
      match this
      case GET => "GET"
      case PUT => "PUT"
      case DELETE => "DELETE"
    }
  }

  /** The argument object of `generatePresignedUrl`. */
  datatype SigningRequest = SigningRequest(
    verb: HttpMethod,
    bucket: string,
    key: string,
    accessKeyId: string,
    secretAccessKey: string,
    region: string,
    endpoint: string,
    expiresIn: int)

  const Algorithm: string := "AWS4-HMAC-SHA256"
  const Service: string := "s3"
  const ScopeTerminator: string := "aws4_request"
  const UnsignedPayload: string := "UNSIGNED-PAYLOAD"
  const SignedHeaders: string := "host"

  // ---------------------------------------------------------------- timestamp

  /**
   * `iso.replace(/[:-]|\.\d{3}/g, '')`: scanning left to right, drop every `:`
   * and `-`, and every `.` that is followed by three digits together with them.
   */
  function AmzDate(iso: string): string
    decreases |iso|
  {
    if iso == [] then []
    else if iso[0] == ':' || iso[0] == '-' then AmzDate(iso[1..])
    else if iso[0] == '.' && |iso| >= 4 && AllDigits(iso[1..4]) then AmzDate(iso[4..])
    else [iso[0]] + AmzDate(iso[1..])
  }

  /** `amzDate.substring(0, 8)` */
  function DateStamp(amzDate: string): string
  {
    Prefix(amzDate, 8)
  }

  /** The shape `Date.prototype.toISOString` produces for years 0 to 9999: `YYYY-MM-DDTHH:MM:SS.sssZ`. */
  predicate IsIsoTimestamp(s: string)
  {
    && |s| == 24
    && AllDigits(s[0..4]) && s[4] == '-' && AllDigits(s[5..7]) && s[7] == '-' && AllDigits(s[8..10])
    && s[10] == 'T'
    && AllDigits(s[11..13]) && s[13] == ':' && AllDigits(s[14..16]) && s[16] == ':' && AllDigits(s[17..19])
    && s[19] == '.' && AllDigits(s[20..23]) && s[23] == 'Z'
  }

  /** The compact form `YYYYMMDDTHHMMSSZ`. */
  predicate IsCompactTimestamp(s: string)
  {
    |s| == 16 && AllDigits(s[..8]) && s[8] == 'T' && AllDigits(s[9..15]) && s[15] == 'Z'
  }

  lemma {:induction false} AmzDateKeepsDigits(d: string, rest: string)
    requires AllDigits(d)
    ensures AmzDate(d + rest) == d + AmzDate(rest)
  {
    if d == [] {
      assert d + rest == rest;
    } else {
      assert (d + rest)[1..] == d[1..] + rest;
      AmzDateKeepsDigits(d[1..], rest);
      assert d == [d[0]] + d[1..];
    }
  }

  lemma AmzDateDropsSeparator(c: char, rest: string)
    requires c == ':' || c == '-'
    ensures AmzDate([c] + rest) == AmzDate(rest)
  {
    assert ([c] + rest)[1..] == rest;
  }

  lemma AmzDateDropsFraction(f: string, rest: string)
    requires |f| == 3 && AllDigits(f)
    ensures AmzDate(['.'] + f + rest) == AmzDate(rest)
  {
    var s := ['.'] + f + rest;
    assert s[1..4] == f && s[4..] == rest;
  }

  /** Any character other than `:`, `-` and `.` is kept where it is. */
  lemma AmzDateKeepsLetter(c: char, rest: string)
    requires c != ':' && c != '-' && c != '.'
    ensures AmzDate([c] + rest) == [c] + AmzDate(rest)
  {
    assert ([c] + rest)[1..] == rest;
  }

  /** Whatever the input, no `:` and no `-` survives. */
  lemma {:induction false} AmzDateHasNoSeparators(iso: string)
    ensures ':' !in AmzDate(iso) && '-' !in AmzDate(iso)
    decreases |iso|
  {
    if iso != [] {
      if iso[0] == ':' || iso[0] == '-' {
        AmzDateHasNoSeparators(iso[1..]);
      } else if iso[0] == '.' && |iso| >= 4 && AllDigits(iso[1..4]) {
        AmzDateHasNoSeparators(iso[4..]);
      } else {
        AmzDateHasNoSeparators(iso[1..]);
      }
    }
  }

  lemma AmzDateOfParts(y: string, mo: string, d: string, h: string, mi: string, sec: string, ms: string)
    requires AllDigits(y) && AllDigits(mo) && AllDigits(d) && AllDigits(h) && AllDigits(mi) && AllDigits(sec)
    requires |ms| == 3 && AllDigits(ms)
    ensures AmzDate(y + (['-'] + (mo + (['-'] + (d + (['T'] + (h + ([':'] + (mi + ([':'] + (sec + (['.'] + ms + "Z"))))))))))))
         == y + (mo + (d + (['T'] + (h + (mi + (sec + "Z"))))))
  {
    var z := "Z";
    AmzDateKeepsLetter('Z', []);
    assert z == ['Z'] + [];
    AmzDateDropsFraction(ms, z);
    var r := ['.'] + ms + z;
    AmzDateKeepsDigits(sec, r);
    r := sec + r;
    AmzDateDropsSeparator(':', r);
    r := [':'] + r;
    AmzDateKeepsDigits(mi, r);
    r := mi + r;
    AmzDateDropsSeparator(':', r);
    r := [':'] + r;
    AmzDateKeepsDigits(h, r);
    r := h + r;
    AmzDateKeepsLetter('T', r);
    r := ['T'] + r;
    AmzDateKeepsDigits(d, r);
    r := d + r;
    AmzDateDropsSeparator('-', r);
    r := ['-'] + r;
    AmzDateKeepsDigits(mo, r);
    r := mo + r;
    AmzDateDropsSeparator('-', r);
    r := ['-'] + r;
    AmzDateKeepsDigits(y, r);
  }

  lemma IsoParts(s: string)
    requires IsIsoTimestamp(s)
    ensures s == s[0..4] + (['-'] + (s[5..7] + (['-'] + (s[8..10] + (['T'] + (s[11..13] + ([':'] + (s[14..16] + ([':'] + (s[17..19] + (['.'] + s[20..23] + "Z")))))))))))
  {
    assert "Z" == s[23..];
    assert ['.'] + s[20..23] + "Z" == s[19..];
    assert s[17..19] + s[19..] == s[17..];
    assert [':'] + s[17..] == s[16..];
    assert s[14..16] + s[16..] == s[14..];
    assert [':'] + s[14..] == s[13..];
    assert s[11..13] + s[13..] == s[11..];
    assert ['T'] + s[11..] == s[10..];
    assert s[8..10] + s[10..] == s[8..];
    assert ['-'] + s[8..] == s[7..];
    assert s[5..7] + s[7..] == s[5..];
    assert ['-'] + s[5..] == s[4..];
    assert s[0..4] + s[4..] == s;
  }

  /**
   * For a `toISOString` timestamp, `amzDate` is the date and time digits with
   * the separators and the milliseconds removed, 16 characters in compact
   * form, and `dateStamp` is its date part.
   */
  lemma AmzDateOfIso(s: string)
    requires IsIsoTimestamp(s)
    ensures AmzDate(s) == s[0..4] + s[5..7] + s[8..10] + "T" + s[11..13] + s[14..16] + s[17..19] + "Z"
    ensures IsCompactTimestamp(AmzDate(s))
    ensures DateStamp(AmzDate(s)) == s[0..4] + s[5..7] + s[8..10]
  {
    IsoParts(s);
    AmzDateOfParts(s[0..4], s[5..7], s[8..10], s[11..13], s[14..16], s[17..19], s[20..23]);
    var a := AmzDate(s);
    assert a == s[0..4] + (s[5..7] + (s[8..10] + (['T'] + (s[11..13] + (s[14..16] + (s[17..19] + "Z"))))));
    assert a == s[0..4] + s[5..7] + s[8..10] + "T" + s[11..13] + s[14..16] + s[17..19] + "Z";
    assert a[..8] == s[0..4] + s[5..7] + s[8..10];
    assert a[9..15] == s[11..13] + s[14..16] + s[17..19];
  }

  // ---------------------------------------------------------------- scope, parameters

  /** `${dateStamp}/${region}/${service}/aws4_request` */
  function CredentialScope(dateStamp: string, region: string): string
  {
    dateStamp + "/" + region + "/" + Service + "/" + ScopeTerminator
  }

  datatype QueryParam = QueryParam(name: string, value: string)

  const AlgorithmName: string := "X-Amz-Algorithm"
  const CredentialName: string := "X-Amz-Credential"
  const DateName: string := "X-Amz-Date"
  const ExpiresName: string := "X-Amz-Expires"
  const SignedHeadersName: string := "X-Amz-SignedHeaders"

  /** The `params` object literal, in the order its keys are written (the order `Object.keys` returns). */
  function QueryParams(accessKeyId: string, scope: string, amzDate: string, expiresIn: int): seq<QueryParam>
  {
    [ QueryParam(AlgorithmName, Algorithm),
      QueryParam(CredentialName, accessKeyId + "/" + scope),
      QueryParam(DateName, amzDate),
      QueryParam(ExpiresName, IntDecimal(expiresIn)),
      QueryParam(SignedHeadersName, SignedHeaders) ]
  }

  // ---------------------------------------------------------------- sorting

  /** Names never decrease along the sequence. */
  predicate SortedByName(ps: seq<QueryParam>)
  {
    forall i :: 0 <= i < |ps| - 1 ==> !LexLess(ps[i + 1].name, ps[i].name)
  }

  /** Names strictly increase along the sequence. */
  predicate StrictlyAscending(ps: seq<QueryParam>)
  {
    forall i :: 0 <= i < |ps| - 1 ==> LexLess(ps[i].name, ps[i + 1].name)
  }

  /** Places `p` before the first element whose name is not smaller than its own. */
  function Insert(p: QueryParam, sorted: seq<QueryParam>): (r: seq<QueryParam>)
    ensures |r| == |sorted| + 1
    ensures r[0] == p || (|sorted| > 0 && r[0] == sorted[0])
    ensures multiset(r) == multiset(sorted) + multiset{p}
  {
    if sorted == [] || !LexLess(sorted[0].name, p.name) then [p] + sorted
    else
      assert sorted == [sorted[0]] + sorted[1..];
      [sorted[0]] + Insert(p, sorted[1..])
  }

  /** `.sort()` on the parameter names (a stable sort by character codes). */
  function SortByName(ps: seq<QueryParam>): (r: seq<QueryParam>)
    ensures |r| == |ps|
  {
    if ps == [] then [] else Insert(ps[0], SortByName(ps[1..]))
  }

  lemma {:induction false} InsertSorted(p: QueryParam, s: seq<QueryParam>)
    requires SortedByName(s)
    ensures SortedByName(Insert(p, s))
    ensures multiset(Insert(p, s)) == multiset(s) + multiset{p}
  {
    if s == [] || !LexLess(s[0].name, p.name) {
    } else {
      assert SortedByName(s[1..]) by {
        forall i | 0 <= i < |s[1..]| - 1 ensures !LexLess(s[1..][i + 1].name, s[1..][i].name) {
          assert s[1..][i] == s[i + 1] && s[1..][i + 1] == s[i + 2];
        }
      }
      InsertSorted(p, s[1..]);
      var tail := Insert(p, s[1..]);
      var r := [s[0]] + tail;
      LexAsymmetric(s[0].name, p.name);
      assert !LexLess(tail[0].name, s[0].name);
      forall i | 0 <= i < |r| - 1 ensures !LexLess(r[i + 1].name, r[i].name) {
        if i > 0 {
          assert r[i] == tail[i - 1] && r[i + 1] == tail[i];
        }
      }
      assert s == [s[0]] + s[1..];
    }
  }

  /** Sorting yields names in non-decreasing order and a permutation of its input. */
  lemma {:induction false} SortByNameCorrect(ps: seq<QueryParam>)
    ensures SortedByName(SortByName(ps))
    ensures multiset(SortByName(ps)) == multiset(ps)
  {
    if ps != [] {
      SortByNameCorrect(ps[1..]);
      InsertSorted(ps[0], SortByName(ps[1..]));
      assert ps == [ps[0]] + ps[1..];
    }
  }

  /** Input that is already in order is left exactly as it is. */
  lemma {:induction false} SortByNameOfSorted(ps: seq<QueryParam>)
    requires SortedByName(ps)
    ensures SortByName(ps) == ps
  {
    if ps != [] {
      assert SortedByName(ps[1..]) by {
        forall i | 0 <= i < |ps[1..]| - 1 ensures !LexLess(ps[1..][i + 1].name, ps[1..][i].name) {
          assert ps[1..][i] == ps[i + 1] && ps[1..][i + 1] == ps[i + 2];
        }
      }
      SortByNameOfSorted(ps[1..]);
      assert ps == [ps[0]] + ps[1..];
    }
  }

  lemma AscendingIsSorted(ps: seq<QueryParam>)
    requires StrictlyAscending(ps)
    ensures SortedByName(ps)
  {
    forall i | 0 <= i < |ps| - 1 ensures !LexLess(ps[i + 1].name, ps[i].name) {
      LexAsymmetric(ps[i].name, ps[i + 1].name);
    }
  }

  lemma ParamNamesAscending()
    ensures LexLess(AlgorithmName, CredentialName)
    ensures LexLess(CredentialName, DateName)
    ensures LexLess(DateName, ExpiresName)
    ensures LexLess(ExpiresName, SignedHeadersName)
  {
    var pre := "X-Amz-";
    assert AlgorithmName == pre + ['A'] + "lgorithm";
    assert CredentialName == pre + ['C'] + "redential";
    assert DateName == pre + ['D'] + "ate";
    assert ExpiresName == pre + ['E'] + "xpires";
    assert SignedHeadersName == pre + ['S'] + "ignedHeaders";
    LexLessAfterCommonPrefix(pre, 'A', 'C', "lgorithm", "redential");
    LexLessAfterCommonPrefix(pre, 'C', 'D', "redential", "ate");
    LexLessAfterCommonPrefix(pre, 'D', 'E', "ate", "xpires");
    LexLessAfterCommonPrefix(pre, 'E', 'S', "xpires", "ignedHeaders");
  }

  lemma FiveNamesAscending(ps: seq<QueryParam>)
    requires |ps| == 5
    requires ps[0].name == AlgorithmName && ps[1].name == CredentialName && ps[2].name == DateName
    requires ps[3].name == ExpiresName && ps[4].name == SignedHeadersName
    ensures StrictlyAscending(ps)
  {
    ParamNamesAscending();
  }

  /** The five parameter names, as written, are already in strictly ascending order, so sorting keeps them as they are. */
  lemma QueryParamsAscending(accessKeyId: string, scope: string, amzDate: string, expiresIn: int)
    ensures StrictlyAscending(QueryParams(accessKeyId, scope, amzDate, expiresIn))
    ensures SortByName(QueryParams(accessKeyId, scope, amzDate, expiresIn)) == QueryParams(accessKeyId, scope, amzDate, expiresIn)
  {
    var ps := QueryParams(accessKeyId, scope, amzDate, expiresIn);
    FiveNamesAscending(ps);
    AscendingIsSorted(ps);
    SortByNameOfSorted(ps);
  }

  // ---------------------------------------------------------------- canonical strings

  /** `parts.join(sep)` */
  function Join(parts: seq<string>, sep: string): string
  {
    if parts == [] then ""
    else if |parts| == 1 then parts[0]
    else parts[0] + sep + Join(parts[1..], sep)
  }

  /** `${encodeURIComponent(k)}=${encodeURIComponent(v)}` for each parameter. */
  function EncodePairs(ps: seq<QueryParam>): (r: seq<string>)
    ensures |r| == |ps|
    ensures forall i :: 0 <= i < |ps| ==> r[i] == EncodeUriComponent(ps[i].name) + "=" + EncodeUriComponent(ps[i].value)
  {
    if ps == [] then []
    else [EncodeUriComponent(ps[0].name) + "=" + EncodeUriComponent(ps[0].value)] + EncodePairs(ps[1..])
  }

  /** `Object.keys(params).sort().map(...).join('&')` */
  function CanonicalQueryString(ps: seq<QueryParam>): string
  {
    Join(EncodePairs(SortByName(ps)), "&")
  }

  /** `[method, path, canonicalQueryString, `host:${host}\n`, 'host', 'UNSIGNED-PAYLOAD'].join('\n')` */
  function CanonicalRequest(verb: string, path: string, query: string, host: string): string
  {
    Join([verb, path, query, "host:" + host + "\n", SignedHeaders, UnsignedPayload], "\n")
  }

  /** `['AWS4-HMAC-SHA256', amzDate, credentialScope, hash].join('\n')` */
  function StringToSign(amzDate: string, scope: string, requestHash: string): string
  {
    Join([Algorithm, amzDate, scope, requestHash], "\n")
  }

  lemma Join4(a: string, b: string, c: string, d: string, sep: string)
    ensures Join([a, b, c, d], sep) == a + sep + b + sep + c + sep + d
  {
    assert [a, b, c, d][1..] == [b, c, d];
    assert [b, c, d][1..] == [c, d];
    assert [c, d][1..] == [d];
    assert Join([d], sep) == d;
    assert Join([c, d], sep) == c + sep + d;
    assert Join([b, c, d], sep) == b + sep + (c + sep + d);
  }

  /**
   * The canonical request is six lines; because the header line already ends in
   * a newline, an empty line separates it from the signed-header list.
   */
  lemma CanonicalRequestLines(verb: string, path: string, query: string, host: string)
    ensures CanonicalRequest(verb, path, query, host)
         == verb + "\n" + path + "\n" + query + "\n" + "host:" + host + "\n" + "\n" + "host" + "\n" + "UNSIGNED-PAYLOAD"
  {
    var h := "host:" + host + "\n";
    var parts := [verb, path, query, h, SignedHeaders, UnsignedPayload];
    assert parts[1..] == [path, query, h, SignedHeaders, UnsignedPayload];
    assert parts[1..][1..] == [query, h, SignedHeaders, UnsignedPayload];
    Join4(query, h, SignedHeaders, UnsignedPayload, "\n");
    assert Join(parts[1..], "\n") == path + "\n" + Join([query, h, SignedHeaders, UnsignedPayload], "\n");
  }

  lemma StringToSignLines(amzDate: string, scope: string, requestHash: string)
    ensures StringToSign(amzDate, scope, requestHash)
         == "AWS4-HMAC-SHA256" + "\n" + amzDate + "\n" + scope + "\n" + requestHash
  {
    Join4(Algorithm, amzDate, scope, requestHash, "\n");
  }

  // ---------------------------------------------------------------- hashing

  /** `sha256(data)`: the digest of the UTF-8 text, as 64 lowercase hex digits. */
  function Sha256Hex(p: Primitives, data: string): (h: string)
    ensures |h| == 64 && IsLowerHex(h)
    ensures HexDecode(h) == Some(p.sha256(Utf8(data)))
  {
    HexRoundTrip(p.sha256(Utf8(data)));
    Hex(p.sha256(Utf8(data)))
  }

  /** What `hmac` takes and returns: a JavaScript string or an `ArrayBuffer`. */
  datatype KeyMaterial = TextKey(text: string) | RawKey(bytes: seq<byte>)

  /** The bytes `importKey` receives: a string is UTF-8 encoded, a buffer is used as it is. */
  function KeyBytes(k: KeyMaterial): seq<byte>
  {
    match k
    case TextKey(t) => Utf8(t)
    case RawKey(b) => b
  }

  /**
   * `hmac(key, data)`: the MAC is returned raw only when the key is a string
   * that starts with `"AWS4"`; otherwise it is returned as lowercase hex text.
   */
  function Hmac(p: Primitives, key: KeyMaterial, data: string): (r: KeyMaterial)
    ensures r.RawKey? <==> key.TextKey? && StartsWith(key.text, "AWS4")
    ensures r.RawKey? ==> r.bytes == p.hmacSha256(KeyBytes(key), Utf8(data))
    ensures r.TextKey? ==> |r.text| == 64 && IsLowerHex(r.text)
    ensures r.TextKey? ==> HexDecode(r.text) == Some(p.hmacSha256(KeyBytes(key), Utf8(data)))
  {
    var mac := p.hmacSha256(KeyBytes(key), Utf8(data));
    HexRoundTrip(mac);
    if key.TextKey? && StartsWith(key.text, "AWS4") then RawKey(mac) else TextKey(Hex(mac))
  }

  /** `getSigningKey(key, dateStamp, region, service)` */
  function SigningKey(p: Primitives, secret: string, dateStamp: string, region: string, service: string): (k: KeyMaterial)
    ensures k.TextKey? && |k.text| == 64 && IsLowerHex(k.text)
  {
    var kDate := Hmac(p, TextKey("AWS4" + secret), dateStamp);
    var kRegion := Hmac(p, kDate, region);
    LowerHexNotAws4(kRegion.text);
    var kService := Hmac(p, kRegion, service);
    LowerHexNotAws4(kService.text);
    Hmac(p, kService, ScopeTerminator)
  }

  /** The chain as the code computes it: `kDate` raw, `kRegion`, `kService` and `kSigning` hex text. */
  lemma SigningKeyChain(p: Primitives, secret: string, dateStamp: string, region: string, service: string)
    ensures var kDate := Hmac(p, TextKey("AWS4" + secret), dateStamp);
            var kRegion := Hmac(p, kDate, region);
            var kService := Hmac(p, kRegion, service);
            && kDate == RawKey(p.hmacSha256(Utf8("AWS4" + secret), Utf8(dateStamp)))
            && kRegion == TextKey(Hex(p.hmacSha256(kDate.bytes, Utf8(region))))
            && kService == TextKey(Hex(p.hmacSha256(Utf8(kRegion.text), Utf8(service))))
            && SigningKey(p, secret, dateStamp, region, service)
               == TextKey(Hex(p.hmacSha256(Utf8(kService.text), Utf8(ScopeTerminator))))
  {
    var kDate := Hmac(p, TextKey("AWS4" + secret), dateStamp);
    assert StartsWith("AWS4" + secret, "AWS4");
    var kRegion := Hmac(p, kDate, region);
    LowerHexNotAws4(kRegion.text);
    var kService := Hmac(p, kRegion, service);
    LowerHexNotAws4(kService.text);
  }

  /** The signing key of SigV4, where every step of the chain is keyed by the previous raw MAC. */
  function SigV4SigningKey(p: Primitives, secret: string, dateStamp: string, region: string, service: string): Digest
  {
    var kDate := p.hmacSha256(Utf8("AWS4" + secret), Utf8(dateStamp));
    var kRegion := p.hmacSha256(kDate, Utf8(region));
    var kService := p.hmacSha256(kRegion, Utf8(service));
    p.hmacSha256(kService, Utf8(ScopeTerminator))
  }

  /**
   * The key the code hands to the final HMAC is the 64 ASCII bytes of a hex
   * string, never the 32-byte SigV4 signing key: only the first step of the
   * chain agrees with SigV4.
   */
  lemma SigningKeyDivergesFromSigV4(p: Primitives, secret: string, dateStamp: string, region: string, service: string)
    ensures Hmac(p, TextKey("AWS4" + secret), dateStamp).RawKey?
    ensures Hmac(p, TextKey("AWS4" + secret), dateStamp).bytes == p.hmacSha256(Utf8("AWS4" + secret), Utf8(dateStamp))
    ensures |KeyBytes(SigningKey(p, secret, dateStamp, region, service))| == 64
    ensures KeyBytes(SigningKey(p, secret, dateStamp, region, service)) != SigV4SigningKey(p, secret, dateStamp, region, service)
  {
    SigningKeyChain(p, secret, dateStamp, region, service);
    var k := SigningKey(p, secret, dateStamp, region, service);
    LowerHexIsAscii(k.text);
    Utf8OfAscii(k.text);
  }

  /** `${value}` inside a template string: a string as it is, an `ArrayBuffer` as `[object ArrayBuffer]`. */
  function Interpolate(k: KeyMaterial): string
  {
    match k
    case TextKey(t) => t
    case RawKey(_) => "[object ArrayBuffer]"
  }

  // ---------------------------------------------------------------- the URL

  function CanonicalPath(bucket: string, key: string): string
  {
    "/" + bucket + "/" + key
  }

  /** The hex SHA-256 of the canonical request for `r` signed at `now`. */
  function RequestHash(p: Primitives, r: SigningRequest, now: string): string
  {
    var amzDate := AmzDate(now);
    var scope := CredentialScope(DateStamp(amzDate), r.region);
    var query := CanonicalQueryString(QueryParams(r.accessKeyId, scope, amzDate, r.expiresIn));
    Sha256Hex(p, CanonicalRequest(r.verb.Name(), CanonicalPath(r.bucket, r.key), query, r.endpoint))
  }

  /** `signature` as it is interpolated into the URL. */
  function Signature(p: Primitives, r: SigningRequest, now: string): (sig: string)
    ensures |sig| == 64 && IsLowerHex(sig)
  {
    var amzDate := AmzDate(now);
    var dateStamp := DateStamp(amzDate);
    var scope := CredentialScope(dateStamp, r.region);
    var key := SigningKey(p, r.secretAccessKey, dateStamp, r.region, Service);
    LowerHexNotAws4(key.text);
    Interpolate(Hmac(p, key, StringToSign(amzDate, scope, RequestHash(p, r, now))))
  }

  lemma SignedUrlShape(prefix: string, query: string, sig: string)
    requires |sig| == 64 && IsLowerHex(sig)
    ensures var url := prefix + query + "&X-Amz-Signature=" + sig;
            && StartsWith(url, prefix)
            && |url| >= 81 && url[|url| - 81..|url| - 64] == "&X-Amz-Signature="
            && IsLowerHex(url[|url| - 64..])
  {
    var url := prefix + query + "&X-Amz-Signature=" + sig;
    assert url == prefix + (query + "&X-Amz-Signature=" + sig);
    assert url[..|prefix|] == prefix;
    assert url[|url| - 64..] == sig;
    assert url[|url| - 81..|url| - 64] == "&X-Amz-Signature=";
  }

  /** `generatePresignedUrl` with the clock read replaced by the timestamp `now`. */
  function PresignedUrl(p: Primitives, r: SigningRequest, now: string): (url: string)
    ensures StartsWith(url, "https://" + r.endpoint + CanonicalPath(r.bucket, r.key) + "?")
    ensures |url| >= 81 && url[|url| - 81..|url| - 64] == "&X-Amz-Signature="
    ensures IsLowerHex(url[|url| - 64..])
  {
    var amzDate := AmzDate(now);
    var scope := CredentialScope(DateStamp(amzDate), r.region);
    var query := CanonicalQueryString(QueryParams(r.accessKeyId, scope, amzDate, r.expiresIn));
    var sig := Signature(p, r, now);
    var prefix := "https://" + r.endpoint + CanonicalPath(r.bucket, r.key) + "?";
    SignedUrlShape(prefix, query, sig);
    prefix + query + "&X-Amz-Signature=" + sig
  }

  // ---------------------------------------------------------------- what the URL contains

  lemma AllUnreservedHere(s: string)
    requires forall i :: 0 <= i < |s| ==> IsAsciiAlnum(s[i]) || s[i] == '-'
    ensures EncodeUriComponent(s) == s
  {
    EncodeIdentity(s);
  }

  /** A decimal rendering (digits and possibly a minus sign) is left alone by encoding. */
  lemma DecimalUnencoded(n: int)
    ensures EncodeUriComponent(IntDecimal(n)) == IntDecimal(n)
  {
    var s := IntDecimal(n);
    if n < 0 {
      assert forall i :: 1 <= i < |s| ==> s[i] == NatDecimal(-n)[i - 1];
    }
    AllUnreservedHere(s);
  }

  lemma JoinFive(xs: seq<string>, sep: string)
    requires |xs| == 5
    ensures Join(xs, sep) == xs[0] + sep + xs[1] + sep + xs[2] + sep + xs[3] + sep + xs[4]
  {
    var t := xs[3..];
    assert Join(t, sep) == xs[3] + sep + xs[4] by {
      assert t[1..] == [xs[4]];
    }
    assert xs[2..][1..] == t;
    assert xs[1..][1..] == xs[2..];
    AppendAssoc(xs[2] + sep, xs[3] + sep, xs[4]);
    AppendAssoc(xs[2] + sep, xs[3], sep);
    assert Join(xs[2..], sep) == xs[2] + sep + xs[3] + sep + xs[4];
    AppendAssoc(xs[1] + sep, xs[2] + sep + xs[3] + sep, xs[4]);
    AppendAssoc(xs[1] + sep, xs[2] + sep + xs[3], sep);
    AppendAssoc(xs[1] + sep, xs[2] + sep, xs[3]);
    AppendAssoc(xs[1] + sep, xs[2], sep);
    assert Join(xs[1..], sep) == xs[1] + sep + xs[2] + sep + xs[3] + sep + xs[4];
  }

  lemma TokensUnreserved()
    ensures AllUnreserved(AlgorithmName) && AllUnreserved(CredentialName) && AllUnreserved(DateName)
    ensures AllUnreserved(ExpiresName) && AllUnreserved(SignedHeadersName)
    ensures AllUnreserved(Algorithm) && AllUnreserved(SignedHeaders)
    ensures AllUnreserved(Service) && AllUnreserved(ScopeTerminator)
  {
  }

  /** Names made of unreserved characters come through encoding unchanged. */
  lemma EncodePairsUnreservedNames(ps: seq<QueryParam>)
    requires forall i :: 0 <= i < |ps| ==> AllUnreserved(ps[i].name)
    ensures forall i :: 0 <= i < |ps| ==> EncodePairs(ps)[i] == Pair(ps[i].name, EncodeUriComponent(ps[i].value))
  {
    forall i | 0 <= i < |ps| ensures EncodePairs(ps)[i] == Pair(ps[i].name, EncodeUriComponent(ps[i].value)) {
      EncodeIdentity(ps[i].name);
    }
  }

  lemma ConstantValuesUnencoded()
    ensures EncodeUriComponent(Algorithm) == Algorithm
    ensures EncodeUriComponent(SignedHeaders) == SignedHeaders
  {
    TokensUnreserved();
    EncodeIdentity(Algorithm);
    EncodeIdentity(SignedHeaders);
  }

  /** Encoding five parameters whose names, first and last values are unreserved leaves those as they are. */
  lemma EncodedFive(ps: seq<QueryParam>)
    requires |ps| == 5
    requires forall i :: 0 <= i < 5 ==> AllUnreserved(ps[i].name)
    requires AllUnreserved(ps[0].value) && AllUnreserved(ps[3].value) && AllUnreserved(ps[4].value)
    ensures var e := EncodePairs(ps);
            && |e| == 5
            && e[0] == Pair(ps[0].name, ps[0].value)
            && e[1] == Pair(ps[1].name, EncodeUriComponent(ps[1].value))
            && e[2] == Pair(ps[2].name, EncodeUriComponent(ps[2].value))
            && e[3] == Pair(ps[3].name, ps[3].value)
            && e[4] == Pair(ps[4].name, ps[4].value)
  {
    EncodePairsUnreservedNames(ps);
    EncodeIdentity(ps[0].value);
    EncodeIdentity(ps[3].value);
    EncodeIdentity(ps[4].value);
  }

  /** `EncodedFive` for five parameters already in sorted order. */
  lemma SortedEncodedFive(ps: seq<QueryParam>)
    requires |ps| == 5 && SortByName(ps) == ps
    requires forall i :: 0 <= i < 5 ==> AllUnreserved(ps[i].name)
    requires AllUnreserved(ps[0].value) && AllUnreserved(ps[3].value) && AllUnreserved(ps[4].value)
    ensures var e := EncodePairs(SortByName(ps));
            && |e| == 5
            && e[0] == Pair(ps[0].name, ps[0].value)
            && e[1] == Pair(ps[1].name, EncodeUriComponent(ps[1].value))
            && e[2] == Pair(ps[2].name, EncodeUriComponent(ps[2].value))
            && e[3] == Pair(ps[3].name, ps[3].value)
            && e[4] == Pair(ps[4].name, ps[4].value)
  {
    EncodedFive(ps);
  }

  /** Every name, and every value but the credential and the date, is made of unreserved characters. */
  lemma QueryParamsUnreserved(accessKeyId: string, scope: string, amzDate: string, expiresIn: int)
    ensures var ps := QueryParams(accessKeyId, scope, amzDate, expiresIn);
            && |ps| == 5
            && (forall i :: 0 <= i < 5 ==> AllUnreserved(ps[i].name))
            && AllUnreserved(ps[0].value) && AllUnreserved(ps[3].value) && AllUnreserved(ps[4].value)
  {
    TokensUnreserved();
    assert AllUnreserved(IntDecimal(expiresIn)) by {
      DecimalUnencoded(expiresIn);
      EncodeIdentity(IntDecimal(expiresIn));
    }
  }

  /** The encoded `name=value` pairs, in sorted order. */
  lemma SortedEncodedPairs(accessKeyId: string, scope: string, amzDate: string, expiresIn: int)
    ensures var e := EncodePairs(SortByName(QueryParams(accessKeyId, scope, amzDate, expiresIn)));
            && |e| == 5
            && e[0] == Pair(AlgorithmName, Algorithm)
            && e[1] == Pair(CredentialName, EncodeUriComponent(accessKeyId + "/" + scope))
            && e[2] == Pair(DateName, EncodeUriComponent(amzDate))
            && e[3] == Pair(ExpiresName, IntDecimal(expiresIn))
            && e[4] == Pair(SignedHeadersName, SignedHeaders)
  {
    var ps := QueryParams(accessKeyId, scope, amzDate, expiresIn);
    QueryParamsAscending(accessKeyId, scope, amzDate, expiresIn);
    QueryParamsUnreserved(accessKeyId, scope, amzDate, expiresIn);
    SortedEncodedFive(ps);
  }

  /**
   * The canonical query string lists the five parameters in ascending name
   * order, each name and value encoded on its own and written `name=value`,
   * joined with `&`.
   */
  lemma CanonicalQueryStringExplicit(accessKeyId: string, scope: string, amzDate: string, expiresIn: int)
    ensures CanonicalQueryString(QueryParams(accessKeyId, scope, amzDate, expiresIn))
         == Pair(AlgorithmName, Algorithm)
          + "&" + Pair(CredentialName, EncodeUriComponent(accessKeyId + "/" + scope))
          + "&" + Pair(DateName, EncodeUriComponent(amzDate))
          + "&" + Pair(ExpiresName, IntDecimal(expiresIn))
          + "&" + Pair(SignedHeadersName, SignedHeaders)
  {
    SortedEncodedPairs(accessKeyId, scope, amzDate, expiresIn);
    JoinFive(EncodePairs(SortByName(QueryParams(accessKeyId, scope, amzDate, expiresIn))), "&");
  }

  lemma EncodeAroundSlash(x: string, y: string)
    ensures EncodeUriComponent(x + "/" + y) == EncodeUriComponent(x) + "%2F" + EncodeUriComponent(y)
  {
    EncodeSlash();
    assert EncodeUriComponent("/") == "%2F" by {
      assert "/"[1..] == [];
    }
    EncodeAppend(x, "/");
    EncodeAppend(x + "/", y);
  }

  lemma AppendAssoc(x: string, y: string, z: string)
    ensures x + (y + z) == x + y + z
  {
  }

  /**
   * The credential as Signature Version 4 query-string authentication shows it
   * in the URL: each of its four `/` separators written `%2F`.
   */
  function SigV4Credential(accessKeyId: string, dateStamp: string, region: string): string
  {
    EncodeUriComponent(accessKeyId) + "%2F" + dateStamp + "%2F" + EncodeUriComponent(region) + "%2F" + Service + "%2F" + ScopeTerminator
  }

  /** Encoding a `/`-separated scope escapes the separators and keeps unreserved parts as they are. */
  lemma EncodeScope(d: string, g: string, s: string, t: string)
    requires AllUnreserved(d) && AllUnreserved(s) && AllUnreserved(t)
    ensures EncodeUriComponent(d + "/" + g + "/" + s + "/" + t)
         == d + "%2F" + EncodeUriComponent(g) + "%2F" + s + "%2F" + t
  {
    EncodeIdentity(d);
    EncodeIdentity(s);
    EncodeIdentity(t);
    EncodeAroundSlash(d, g);
    EncodeAroundSlash(d + "/" + g, s);
    EncodeAroundSlash(d + "/" + g + "/" + s, t);
  }

  /** The same with the access key id and one more separator in front. */
  lemma EncodeKeyAndScope(a: string, d: string, g: string, s: string, t: string)
    requires AllUnreserved(d) && AllUnreserved(s) && AllUnreserved(t)
    ensures EncodeUriComponent(a + "/" + (d + "/" + g + "/" + s + "/" + t))
         == EncodeUriComponent(a) + "%2F" + d + "%2F" + EncodeUriComponent(g) + "%2F" + s + "%2F" + t
  {
    EncodeScope(d, g, s, t);
    EncodeAroundSlash(a, d + "/" + g + "/" + s + "/" + t);
    var h := EncodeUriComponent(a) + "%2F";
    var e1 := d + "%2F" + EncodeUriComponent(g);
    var e2 := e1 + "%2F" + s;
    AppendAssoc(h, e2 + "%2F", t);
    AppendAssoc(h, e2, "%2F");
    AppendAssoc(h, e1 + "%2F", s);
    AppendAssoc(h, e1, "%2F");
    AppendAssoc(h, d + "%2F", EncodeUriComponent(g));
    AppendAssoc(h, d, "%2F");
  }

  /** Encoding `accessKeyId/scope` escapes the separators and leaves the digits of the date alone. */
  lemma CredentialEncoded(accessKeyId: string, dateStamp: string, region: string)
    requires AllDigits(dateStamp)
    ensures EncodeUriComponent(accessKeyId + "/" + CredentialScope(dateStamp, region))
         == SigV4Credential(accessKeyId, dateStamp, region)
  {
    TokensUnreserved();
    assert AllUnreserved(dateStamp) by {
      AllUnreservedHere(dateStamp);
      EncodeIdentity(dateStamp);
    }
    EncodeKeyAndScope(accessKeyId, dateStamp, region, Service, ScopeTerminator);
  }

  /** `name=value` */
  function Pair(name: string, value: string): string
  {
    name + "=" + value
  }

  /**
   * The query string of AWS Signature Version 4 query-string authentication (S3 API Reference, "Authenticating Requests: Using Query Parameters"):
   * the five parameters by ascending name.
   */
  function SigV4Query(accessKeyId: string, region: string, amzDate: string, expires: int): string
  {
    Pair(AlgorithmName, Algorithm)
      + "&" + Pair(CredentialName, SigV4Credential(accessKeyId, DateStamp(amzDate), region))
      + "&" + Pair(DateName, amzDate)
      + "&" + Pair(ExpiresName, IntDecimal(expires))
      + "&" + Pair(SignedHeadersName, SignedHeaders)
  }

  /**
   * The presigned URL of Signature Version 4 query-string authentication, with
   * the path as this code writes it: host, unencoded path, the five sorted
   * parameters and the signature appended last.
   */
  function SigV4Url(endpoint: string, bucket: string, key: string, accessKeyId: string, region: string,
                         amzDate: string, expires: int, signature: string): string
  {
    "https://" + endpoint + CanonicalPath(bucket, key) + "?" + SigV4Query(accessKeyId, region, amzDate, expires)
      + "&X-Amz-Signature=" + signature
  }

  /** A compact timestamp is left alone by encoding, and its date part is all digits. */
  lemma CompactTimestampUnencoded(a: string)
    requires IsCompactTimestamp(a)
    ensures EncodeUriComponent(a) == a
    ensures AllDigits(DateStamp(a))
  {
    assert forall i :: 0 <= i < |a| ==> IsAsciiAlnum(a[i]) || a[i] == '-' by {
      assert forall i :: 0 <= i < 8 ==> a[i] == a[..8][i];
      assert forall i :: 9 <= i < 15 ==> a[i] == a[9..15][i - 9];
    }
    AllUnreservedHere(a);
  }

  /** With a compact timestamp, the canonical query string is the Signature Version 4 one. */
  lemma CanonicalQueryIsSigV4(accessKeyId: string, region: string, amzDate: string, expiresIn: int)
    requires IsCompactTimestamp(amzDate)
    ensures CanonicalQueryString(QueryParams(accessKeyId, CredentialScope(DateStamp(amzDate), region), amzDate, expiresIn))
         == SigV4Query(accessKeyId, region, amzDate, expiresIn)
  {
    var dateStamp := DateStamp(amzDate);
    CompactTimestampUnencoded(amzDate);
    CanonicalQueryStringExplicit(accessKeyId, CredentialScope(dateStamp, region), amzDate, expiresIn);
    CredentialEncoded(accessKeyId, dateStamp, region);
  }

  /**
   * For a well-formed timestamp the presigned URL is exactly the Signature
   * Version 4 query-string form: every date in it comes from the one timestamp, `X-Amz-Expires` is the
   * decimal `expiresIn`, and the signature follows the sorted block.
   */
  lemma PresignedUrlExplicit(p: Primitives, r: SigningRequest, now: string)
    requires IsIsoTimestamp(now)
    ensures PresignedUrl(p, r, now)
         == SigV4Url(r.endpoint, r.bucket, r.key, r.accessKeyId, r.region, AmzDate(now), r.expiresIn, Signature(p, r, now))
  {
    AmzDateOfIso(now);
    CanonicalQueryIsSigV4(r.accessKeyId, r.region, AmzDate(now), r.expiresIn);
  }

  /** The canonical request that is hashed, line by line. */
  lemma RequestHashExplicit(p: Primitives, r: SigningRequest, now: string)
    ensures var amzDate := AmzDate(now);
            var scope := CredentialScope(DateStamp(amzDate), r.region);
            var query := CanonicalQueryString(QueryParams(r.accessKeyId, scope, amzDate, r.expiresIn));
            RequestHash(p, r, now)
              == Hex(p.sha256(Utf8(r.verb.Name() + "\n" + CanonicalPath(r.bucket, r.key) + "\n" + query + "\n"
                                    + "host:" + r.endpoint + "\n" + "\n" + "host" + "\n" + "UNSIGNED-PAYLOAD")))
  {
    var amzDate := AmzDate(now);
    var scope := CredentialScope(DateStamp(amzDate), r.region);
    var query := CanonicalQueryString(QueryParams(r.accessKeyId, scope, amzDate, r.expiresIn));
    CanonicalRequestLines(r.verb.Name(), CanonicalPath(r.bucket, r.key), query, r.endpoint);
  }

  /**
   * The signature is the hex HMAC of the four-line string to sign, keyed by the
   * ASCII text of the hex signing key.
   */
  lemma SignatureExplicit(p: Primitives, r: SigningRequest, now: string)
    ensures var amzDate := AmzDate(now);
            var dateStamp := DateStamp(amzDate);
            var scope := CredentialScope(dateStamp, r.region);
            var key := SigningKey(p, r.secretAccessKey, dateStamp, r.region, Service);
            Signature(p, r, now)
              == Hex(p.hmacSha256(Utf8(key.text),
                                  Utf8("AWS4-HMAC-SHA256" + "\n" + amzDate + "\n" + scope + "\n" + RequestHash(p, r, now))))
  {
    var amzDate := AmzDate(now);
    var dateStamp := DateStamp(amzDate);
    var scope := CredentialScope(dateStamp, r.region);
    var key := SigningKey(p, r.secretAccessKey, dateStamp, r.region, Service);
    LowerHexNotAws4(key.text);
    StringToSignLines(amzDate, scope, RequestHash(p, r, now));
  }

  /** A string is determined by what surrounds it. */
  lemma CancelAround(pre: string, h1: string, h2: string, post: string)
    requires pre + h1 + post == pre + h2 + post
    ensures h1 == h2
  {
    assert |h1| == |h2|;
    assert h1 == (pre + h1 + post)[|pre|..|pre| + |h1|];
  }

  /** The host sits between a prefix fixed by the verb, path and query and a constant suffix. */
  lemma CanonicalRequestAroundHost(verb: string, path: string, query: string, host: string)
    ensures CanonicalRequest(verb, path, query, host)
         == (verb + "\n" + path + "\n" + query + "\n" + "host:") + host + "\n\nhost\nUNSIGNED-PAYLOAD"
  {
    CanonicalRequestLines(verb, path, query, host);
    var pre := verb + "\n" + path + "\n" + query + "\n" + "host:";
    assert pre + host + "\n" + "\n" + "host" + "\n" + "UNSIGNED-PAYLOAD" == pre + host + "\n\nhost\nUNSIGNED-PAYLOAD";
  }

  /**
   * The configured host goes into the signed header line as given, so the
   * canonical request determines the host.
   */
  lemma HostDetermined(verb: string, path: string, query: string, h1: string, h2: string)
    ensures CanonicalRequest(verb, path, query, h1) == CanonicalRequest(verb, path, query, h2) ==> h1 == h2
  {
    var pre := verb + "\n" + path + "\n" + query + "\n" + "host:";
    var post := "\n\nhost\nUNSIGNED-PAYLOAD";
    CanonicalRequestAroundHost(verb, path, query, h1);
    CanonicalRequestAroundHost(verb, path, query, h2);
    if CanonicalRequest(verb, path, query, h1) == CanonicalRequest(verb, path, query, h2) {
      CancelAround(pre, h1, h2, post);
    }
  }

  /** The host is not lower-cased: hosts differing only in case sign different requests. */
  lemma HostCaseIsSigned(verb: string, path: string, query: string)
    ensures CanonicalRequest(verb, path, query, "Example.com") != CanonicalRequest(verb, path, query, "example.com")
  {
    HostDetermined(verb, path, query, "Example.com", "example.com");
    assert "Example.com"[0] != "example.com"[0];
  }

  // ---------------------------------------------------------------- exported helpers

  /** `PresignedUrlOptions`; `expiresIn` is optional. */
  datatype UrlOptions = UrlOptions(
    bucket: string,
    key: string,
    accessKeyId: string,
    secretAccessKey: string,
    region: string,
    endpoint: string,
    expiresIn: Option<int>)

  function Request(verb: HttpMethod, o: UrlOptions, expiresIn: int): SigningRequest
  {
    SigningRequest(verb, o.bucket, o.key, o.accessKeyId, o.secretAccessKey, o.region, o.endpoint, expiresIn)
  }

  const PutDefaultExpiry: int := 3600
  const GetDefaultExpiry: int := 1800
  const DeleteExpiry: int := 60

  /** `generatePresignedPutUrl`: `contentType` is accepted and not passed on. */
  function PresignedPutUrl(p: Primitives, o: UrlOptions, contentType: string, now: string): string
  {
    PresignedUrl(p, Request(PUT, o, o.expiresIn.GetOr(PutDefaultExpiry)), now)
  }

  /** `generatePresignedGetUrl` */
  function PresignedGetUrl(p: Primitives, o: UrlOptions, now: string): string
  {
    PresignedUrl(p, Request(GET, o, o.expiresIn.GetOr(GetDefaultExpiry)), now)
  }

  /**
   * A PUT URL expires after 3600 seconds unless told otherwise, and does not
   * depend on the content type it is given.
   */
  lemma PutUrlForm(p: Primitives, o: UrlOptions, contentType: string, now: string)
    requires IsIsoTimestamp(now)
    ensures PresignedPutUrl(p, o, contentType, now)
         == SigV4Url(o.endpoint, o.bucket, o.key, o.accessKeyId, o.region, AmzDate(now),
                          if o.expiresIn.Some? then o.expiresIn.value else 3600,
                          Signature(p, Request(PUT, o, o.expiresIn.GetOr(3600)), now))
  {
    PresignedUrlExplicit(p, Request(PUT, o, o.expiresIn.GetOr(PutDefaultExpiry)), now);
  }

  /** A GET URL expires after 1800 seconds unless told otherwise. */
  lemma GetUrlForm(p: Primitives, o: UrlOptions, now: string)
    requires IsIsoTimestamp(now)
    ensures PresignedGetUrl(p, o, now)
         == SigV4Url(o.endpoint, o.bucket, o.key, o.accessKeyId, o.region, AmzDate(now),
                          if o.expiresIn.Some? then o.expiresIn.value else 1800,
                          Signature(p, Request(GET, o, o.expiresIn.GetOr(1800)), now))
  {
    PresignedUrlExplicit(p, Request(GET, o, o.expiresIn.GetOr(GetDefaultExpiry)), now);
  }

  /** What `fetch` produced: a response with a status, or a rejected promise. */
  datatype FetchOutcome = Responded(status: int) | NetworkError

  /** `response.ok` */
  predicate IsOkStatus(status: int) { 200 <= status <= 299 }

  /** The URL `deleteObject` fetches: DELETE, valid for 60 seconds whatever `expiresIn` says. */
  function DeleteObjectUrl(p: Primitives, o: UrlOptions, now: string): string
  {
    PresignedUrl(p, Request(DELETE, o, DeleteExpiry), now)
  }

  lemma DeleteUrlForm(p: Primitives, o: UrlOptions, now: string)
    requires IsIsoTimestamp(now)
    ensures DeleteObjectUrl(p, o, now)
         == SigV4Url(o.endpoint, o.bucket, o.key, o.accessKeyId, o.region, AmzDate(now), 60,
                          Signature(p, Request(DELETE, o, 60), now))
  {
    PresignedUrlExplicit(p, Request(DELETE, o, DeleteExpiry), now);
  }

  /**
   * How `deleteObject` reads the outcome of its fetch: a rejected fetch
   * propagates, and a response counts as success when it is ok or a 404.
   */
  function DeleteResult(response: FetchOutcome): (r: Result<bool, string>)
    ensures r.Failure? <==> response.NetworkError?
    ensures r.Success? ==> (r.value <==> IsOkStatus(response.status) || response.status == 404)
  {
    if response.NetworkError? then Failure("fetch failed")
    else Success(IsOkStatus(response.status) || response.status == 404)
  }

  /** `deleteObject`, with the network call given as `fetch`: one fetch of the DELETE URL. */
  function DeleteObject(p: Primitives, o: UrlOptions, now: string, fetch: string -> FetchOutcome): (r: Result<bool, string>)
    ensures var response := fetch(DeleteObjectUrl(p, o, now));
            && (r.Failure? <==> response.NetworkError?)
            && (r.Success? ==> (r.value <==> IsOkStatus(response.status) || response.status == 404))
  {
    DeleteResult(fetch(DeleteObjectUrl(p, o, now)))
  }
}
