/**
 * `POST /api/upload-url`: the older presigning endpoint. It accepts exactly
 * five content types and looks the type up in the extension table as given.
 */
module UploadUrl {
  import opened Wrappers
  import opened Text
  import opened UploadRules
  import S3Signer
  import PresignedPost

  /** `allowedTypes` */
  const AllowedTypes: seq<string> := ["video/mp4", "video/webm", "image/jpeg", "image/png", "image/gif"]

  /** `allowedTypes.includes(contentType)` */
  predicate IsAllowedType(contentType: string)
  {
    contentType in AllowedTypes
  }

  /** `getExtension`: the filename suffix, else the table entry of the type as given, else nothing. */
  function GetExtension(filename: string, contentType: string): (ext: string)
    ensures SuffixExtension(filename).Some? ==> ext == SuffixExtension(filename).value
  {
    ExtensionOf(filename, contentType)
  }

  /** The allowed list and the extension table name the same five types. */
  lemma AllowedTypesAreTableKeys()
    ensures forall t :: IsAllowedType(t) <==> t in TypeMap
  {
    TypeMapKeys();
  }

  /** Every accepted type has an extension, so a filename without a suffix still gets one. */
  lemma AcceptedTypeHasExtension(filename: string, contentType: string)
    requires IsAllowedType(contentType)
    ensures GetExtension(filename, contentType) != ""
    ensures |GetExtension(filename, contentType)| >= 2 && GetExtension(filename, contentType)[0] == '.'
  {
    AllowedTypesAreTableKeys();
  }

  /**
   * This endpoint accepts a subset of what `/api/presigned-post` accepts: it
   * rejects `image/x-png` and the `image/png` variants; on the types it accepts
   * the two endpoints choose the same extension.
   */
  lemma NarrowerThanPresignedPost(filename: string, contentType: string)
    ensures IsAllowedType(contentType) ==> PresignedPost.IsValidType(contentType)
    ensures IsAllowedType(contentType) ==> GetExtension(filename, contentType) == PresignedPost.GetExtension(filename, contentType)
    ensures !IsAllowedType("image/x-png") && PresignedPost.IsValidType("image/x-png")
    ensures !IsAllowedType("image/png;name=x") && PresignedPost.IsValidType("image/png;name=x")
  {
    assert "image/png;name=x"[..9] == "image/png";
    if IsAllowedType(contentType) && contentType == "image/png" {
      assert StartsWith(contentType, "image/png");
    }
  }

  /** The JSON request body; any field may be missing. */
  datatype UploadBody = UploadBody(filename: Option<string>, contentType: Option<string>, size: Option<int>)

  /**
   * `onRequestPost` after authentication. `body` is `None` when the request
   * body is not JSON or is `null` (other JSON values read as missing fields); `uuid` and `now` stand for `crypto.randomUUID()`
   * and the signer's clock reading.
   */
  function Handle(p: S3Signer.Primitives, env: StorageEnv, body: Option<UploadBody>, uuid: string, now: string): (r: UploadResponse)
    ensures body.None? ==> r.Rejected? && r.status == 500
    ensures body.Some? && (!Truthy(body.value.filename) || !Truthy(body.value.contentType))
            ==> r == Rejected(400, MissingFields)
    ensures r.Issued? <==> && body.Some? && Truthy(body.value.filename) && Truthy(body.value.contentType)
                           && IsAllowedType(body.value.contentType.value) && !SizeRejected(body.value.size)
    ensures r == Rejected(400, InvalidType) <==> && body.Some? && Truthy(body.value.filename) && Truthy(body.value.contentType)
                                                 && !IsAllowedType(body.value.contentType.value)
    ensures r == Rejected(400, TooLarge) <==> && body.Some? && Truthy(body.value.filename) && Truthy(body.value.contentType)
                                              && IsAllowedType(body.value.contentType.value) && SizeRejected(body.value.size)
    ensures r.Issued? ==> r == IssueUpload(p, env, body.value.contentType.value,
                                           GetExtension(body.value.filename.value, body.value.contentType.value), uuid, now)
  {
    if body.None? then Rejected(500, "Failed to generate upload URL")
    else
      var b := body.value;
      if !Truthy(b.filename) || !Truthy(b.contentType) then Rejected(400, MissingFields)
      else if !IsAllowedType(b.contentType.value) then Rejected(400, InvalidType)
      else if SizeRejected(b.size) then Rejected(400, TooLarge)
      else IssueUpload(p, env, b.contentType.value, GetExtension(b.filename.value, b.contentType.value), uuid, now)
  }

  /** Every key this endpoint issues ends in a non-empty extension. */
  lemma IssuedKeyHasExtension(p: S3Signer.Primitives, env: StorageEnv, body: Option<UploadBody>, uuid: string, now: string)
    requires Handle(p, env, body, uuid, now).Issued?
    ensures var ext := GetExtension(body.value.filename.value, body.value.contentType.value);
            var k := Handle(p, env, body, uuid, now).b2Key;
            && ext != "" && k[|k| - |ext|..] == ext
  {
    var ct := body.value.contentType.value;
    var ext := GetExtension(body.value.filename.value, ct);
    var r := Handle(p, env, body, uuid, now);
    assert IsAllowedType(ct);
    assert r.b2Key == ObjectKey(Folder(ct), FileIdFromUuid(uuid), ext);
    AcceptedTypeHasExtension(body.value.filename.value, ct);
    KeyLayout(ct, FileIdFromUuid(uuid), ext);
  }
}
