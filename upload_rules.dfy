/**
 * The rules the three upload endpoints share: JavaScript truthiness of a
 * request field, the extension taken from the filename or from the content
 * type, the folder, the object key and the file id cut from a UUID.
 */
module UploadRules {
  import opened Wrappers
  import opened Text
  import S3Signer

  /** A string field of a request body is truthy when it is present and not empty. */
  predicate Truthy(field: Option<string>)
  {
    field.Some? && field.value != ""
  }

  // ---------------------------------------------------------------- filename suffix

  /** Length of the longest suffix of `s` made of ASCII letters and digits. */
  function AlnumRun(s: string): (n: nat)
    ensures n <= |s|
    ensures AllAsciiAlnum(s[|s| - n..])
    ensures n < |s| ==> !IsAsciiAlnum(s[|s| - n - 1])
    decreases |s|
  {
    if s == [] || !IsAsciiAlnum(s[|s| - 1]) then 0
    else
      var m := AlnumRun(s[..|s| - 1]);
      assert s[|s| - (m + 1)..] == s[..|s| - 1][|s| - 1 - m..] + [s[|s| - 1]];
      m + 1
  }

  /** No longer all-letters-and-digits suffix exists than the one `AlnumRun` measures. */
  lemma {:induction false} AlnumRunMaximal(s: string, j: nat)
    requires j <= |s| && AllAsciiAlnum(s[j..])
    ensures AlnumRun(s) >= |s| - j
    decreases |s|
  {
    if j < |s| {
      assert IsAsciiAlnum(s[j..][|s| - 1 - j]);
      var t := s[..|s| - 1];
      assert t[j..] == s[j..][..|s| - 1 - j];
      AlnumRunMaximal(t, j);
    }
  }

  /** `filename` ends in a `.` at index `i` followed by one or more ASCII letters and digits. */
  predicate DotSuffixAt(filename: string, i: int)
  {
    0 <= i < |filename| - 1 && filename[i] == '.' && AllAsciiAlnum(filename[i + 1..])
  }

  /**
   * `filename.match(/\.[a-zA-Z0-9]+$/)` followed by `match[0].toLowerCase()`:
   * the match, when there is one, is a `.` and the run of letters and digits
   * that ends the name.
   */
  function SuffixExtension(filename: string): (ext: Option<string>)
    ensures ext.Some? ==> |ext.value| >= 2 && ext.value[0] == '.'
    ensures ext.Some? ==> forall k :: 1 <= k < |ext.value| ==> IsAsciiAlnum(ext.value[k]) && !('A' <= ext.value[k] <= 'Z')
  {
    var n := AlnumRun(filename);
    if 0 < n < |filename| && filename[|filename| - n - 1] == '.' then
      var m := filename[|filename| - n - 1..];
      assert forall k :: 1 <= k < |m| ==> m[k] == filename[|filename| - n..][k - 1];
      Some(AsciiLower(m))
    else None
  }

  /**
   * The regular expression matches exactly when some `.` is followed, up to
   * the end of the name, by one or more ASCII letters and digits, and the
   * extension is then that suffix lower-cased.
   */
  lemma SuffixExtensionSpec(filename: string)
    ensures SuffixExtension(filename).Some? <==> exists i :: DotSuffixAt(filename, i)
    ensures forall i :: DotSuffixAt(filename, i) ==> SuffixExtension(filename) == Some(AsciiLower(filename[i..]))
  {
    var n := AlnumRun(filename);
    forall k | |filename| - n <= k < |filename|
      ensures IsAsciiAlnum(filename[k])
    {
      assert filename[k] == filename[|filename| - n..][k - (|filename| - n)];
    }
    forall i | DotSuffixAt(filename, i)
      ensures n == |filename| - i - 1
    {
      AlnumRunMaximal(filename, i + 1);
    }
    if SuffixExtension(filename).Some? {
      var i := |filename| - n - 1;
      assert filename[i + 1..] == filename[|filename| - n..];
      assert DotSuffixAt(filename, i);
    }
  }

  // ---------------------------------------------------------------- content types

  /** The five-entry `typeMap`. */
  const TypeMap: map<string, string> := map[
    "video/mp4" := ".mp4",
    "video/webm" := ".webm",
    "image/jpeg" := ".jpg",
    "image/png" := ".png",
    "image/gif" := ".gif"]

  /** `typeMap[t] || ''`: the table entry, or the empty string for a type the table does not list. */
  function TypeExtension(t: string): (ext: string)
    ensures ext != "" <==> t in TypeMap
  {
    if t in TypeMap then TypeMap[t] else ""
  }

  /** The five types of the table, and nothing else, have an extension. */
  lemma TypeMapKeys()
    ensures TypeMap.Keys == {"video/mp4", "video/webm", "image/jpeg", "image/png", "image/gif"}
    ensures forall t :: t in TypeMap ==> |TypeMap[t]| >= 4 && TypeMap[t][0] == '.'
  {
  }

  /** The suffix rule first, then the table entry for `lookupType`, then the empty string. */
  function ExtensionOf(filename: string, lookupType: string): (ext: string)
    ensures ext == "" || (|ext| >= 2 && ext[0] == '.')
    ensures SuffixExtension(filename).Some? ==> ext == SuffixExtension(filename).value
    ensures SuffixExtension(filename).None? ==> (ext != "" <==> lookupType in TypeMap)
  {
    TypeMapKeys();
    match SuffixExtension(filename)
    case Some(e) => e
    case None => TypeExtension(lookupType)
  }

  // ---------------------------------------------------------------- folder and key

  /** `contentType.startsWith('video/') ? 'videos' : 'images'` */
  function Folder(contentType: string): (folder: string)
    ensures folder == "videos" || folder == "images"
    ensures folder == "videos" <==> StartsWith(contentType, "video/")
  {
    if StartsWith(contentType, "video/") then "videos" else "images"
  }

  /** `${folder}/${fileId}${extension}` */
  function ObjectKey(folder: string, fileId: string, extension: string): string
  {
    folder + "/" + fileId + extension
  }

  /**
   * Both folders are six characters long, so with twelve-character ids a key
   * tells its folder, id and extension apart: distinct uploads get distinct keys.
   */
  lemma ObjectKeyInjective(f1: string, id1: string, e1: string, f2: string, id2: string, e2: string)
    requires |f1| == |f2| && |id1| == |id2|
    requires ObjectKey(f1, id1, e1) == ObjectKey(f2, id2, e2)
    ensures f1 == f2 && id1 == id2 && e1 == e2
  {
    var k := ObjectKey(f1, id1, e1);
    assert k == f1 + ("/" + (id1 + e1));
    assert k == f2 + ("/" + (id2 + e2));
    assert f1 == k[..|f1|] == f2;
    assert id1 + e1 == k[|f1| + 1..] == id2 + e2;
    assert id1 == (id1 + e1)[..|id1|];
    assert id2 == (id2 + e2)[..|id2|];
    assert e1 == (id1 + e1)[|id1|..];
    assert e2 == (id2 + e2)[|id2|..];
  }

  // ---------------------------------------------------------------- file id

  /** `s.replace(/-/g, '')` */
  function RemoveDashes(s: string): (r: string)
    ensures |r| <= |s|
    ensures forall k :: 0 <= k < |r| ==> r[k] != '-'
  {
    if s == [] then []
    else if s[0] == '-' then RemoveDashes(s[1..])
    else [s[0]] + RemoveDashes(s[1..])
  }

  lemma {:induction false} RemoveDashesAppend(a: string, b: string)
    ensures RemoveDashes(a + b) == RemoveDashes(a) + RemoveDashes(b)
  {
    if a != [] {
      assert (a + b)[1..] == a[1..] + b;
      RemoveDashesAppend(a[1..], b);
    } else {
      assert a + b == b;
    }
  }

  lemma {:induction false} RemoveDashesNone(a: string)
    requires forall k :: 0 <= k < |a| ==> a[k] != '-'
    ensures RemoveDashes(a) == a
  {
    if a != [] {
      RemoveDashesNone(a[1..]);
    }
  }

  /** `crypto.randomUUID().replace(/-/g, '').slice(0, 12)` with the UUID given. */
  function FileIdFromUuid(uuid: string): (id: string)
    ensures |id| <= 12
  {
    Prefix(RemoveDashes(uuid), 12)
  }

  /** The form `crypto.randomUUID` returns: `8-4-4-4-12` lowercase hex digits. */
  predicate IsUuid(u: string)
  {
    && |u| == 36
    && u[8] == '-' && u[13] == '-' && u[18] == '-' && u[23] == '-'
    && IsLowerHex(u[..8]) && IsLowerHex(u[9..13]) && IsLowerHex(u[14..18])
    && IsLowerHex(u[19..23]) && IsLowerHex(u[24..])
  }

  /** A file id is the first two groups of the UUID: twelve lowercase hex digits. */
  lemma FileIdOfUuid(u: string)
    requires IsUuid(u)
    ensures FileIdFromUuid(u) == u[..8] + u[9..13]
    ensures |FileIdFromUuid(u)| == 12 && IsLowerHex(FileIdFromUuid(u))
  {
    var a := u[..8];
    var b := u[9..13];
    assert u == a + ("-" + (b + u[13..]));
    RemoveDashesAppend(a, "-" + (b + u[13..]));
    RemoveDashesAppend("-", b + u[13..]);
    RemoveDashesAppend(b, u[13..]);
    assert forall k :: 0 <= k < |a| ==> a[k] != '-' by {
      assert forall k :: 0 <= k < |a| ==> IsLowerHexDigit(a[k]);
    }
    assert forall k :: 0 <= k < |b| ==> b[k] != '-' by {
      assert forall k :: 0 <= k < |b| ==> IsLowerHexDigit(b[k]);
    }
    RemoveDashesNone(a);
    RemoveDashesNone(b);
    assert RemoveDashes("-") == [] by {
      assert "-"[1..] == [];
    }
    var r := RemoveDashes(u);
    assert r == a + b + RemoveDashes(u[13..]);
    assert r[..12] == a + b;
  }

  // ---------------------------------------------------------------- responses

  /** The storage settings the endpoints read from their environment. */
  datatype StorageEnv = StorageEnv(
    bucket: string,
    keyId: string,
    appKey: string,
    region: string,
    endpoint: string,
    publicUrl: string)

  /** The options every upload endpoint hands to `generatePresignedPutUrl`: the object key, valid for one hour. */
  function PutOptions(env: StorageEnv, b2Key: string): (o: S3Signer.UrlOptions)
    ensures o.key == b2Key && o.bucket == env.bucket && o.expiresIn == Some(3600)
  {
    S3Signer.UrlOptions(env.bucket, b2Key, env.keyId, env.appKey, env.region, env.endpoint, Some(3600))
  }

  /** A JSON error with its status, or the issued upload. */
  datatype UploadResponse =
    | Rejected(status: int, error: string)
    | Issued(uploadUrl: string, fileId: string, b2Key: string)

  const MissingFields: string := "Missing filename or contentType"
  const InvalidType: string := "Invalid file type"
  const TooLarge: string := "File too large (max 500MB)"

  /** The 500 MiB cap of the two presigning endpoints. */
  const MaxDirectSize: int := 500 * 1024 * 1024

  /** `size && size > maxSize`: an absent or zero size is never too large. */
  predicate SizeRejected(size: Option<int>)
  {
    size.Some? && size.value != 0 && size.value > MaxDirectSize
  }

  /**
   * What both presigning endpoints do once a request is accepted: cut the file
   * id from the UUID, file the object under its folder, and presign a PUT for
   * the key, valid for one hour.
   */
  function IssueUpload(p: S3Signer.Primitives, env: StorageEnv, contentType: string, extension: string,
                       uuid: string, now: string): (r: UploadResponse)
    ensures r.Issued? && r.fileId == FileIdFromUuid(uuid)
    ensures r.b2Key == ObjectKey(Folder(contentType), r.fileId, extension)
    ensures r.uploadUrl == S3Signer.PresignedPutUrl(p, PutOptions(env, r.b2Key), contentType, now)
  {
    var fileId := FileIdFromUuid(uuid);
    var b2Key := ObjectKey(Folder(contentType), fileId, extension);
    Issued(S3Signer.PresignedPutUrl(p, PutOptions(env, b2Key), contentType, now), fileId, b2Key)
  }

  /**
   * For a well-formed clock reading the issued URL is the Signature Version 4 PUT URL
   * for the object key: one hour of validity, signed for the configured host.
   */
  lemma IssuedUrlForm(p: S3Signer.Primitives, env: StorageEnv, contentType: string, extension: string,
                      uuid: string, now: string)
    requires S3Signer.IsIsoTimestamp(now)
    ensures var r := IssueUpload(p, env, contentType, extension, uuid, now);
            r.uploadUrl == S3Signer.SigV4Url(env.endpoint, env.bucket, r.b2Key, env.keyId, env.region,
                                                   S3Signer.AmzDate(now), 3600,
                                                   S3Signer.Signature(p, S3Signer.Request(S3Signer.PUT, PutOptions(env, r.b2Key), 3600), now))
  {
    var r := IssueUpload(p, env, contentType, extension, uuid, now);
    S3Signer.PutUrlForm(p, PutOptions(env, r.b2Key), contentType, now);
  }

  /** A key lies in `videos/` exactly for video types, and is the folder, the file id and the extension in turn. */
  lemma KeyLayout(contentType: string, fileId: string, extension: string)
    ensures var k := ObjectKey(Folder(contentType), fileId, extension);
            && (StartsWith(k, "videos/") <==> StartsWith(contentType, "video/"))
            && k[7..|k| - |extension|] == fileId
            && k[|k| - |extension|..] == extension
  {
    var folder := Folder(contentType);
    var k := ObjectKey(folder, fileId, extension);
    assert k == (folder + "/") + fileId + extension;
    assert k[..7] == folder + "/";
    assert k[0] == folder[0];
    assert StartsWith(k, "videos/") ==> k[0] == 'v';
  }
}
