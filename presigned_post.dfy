/**
 * `POST /api/presigned-post`: checks an upload request and answers with a
 * presigned PUT URL for a fresh object key. This endpoint also accepts the
 * legacy `image/x-png` type and any type that starts with `image/png`.
 */
module PresignedPost {
  import opened Wrappers
  import opened Text
  import opened UploadRules
  import S3Signer

  /** The JSON request body; any field may be missing. */
  datatype PostBody = PostBody(filename: Option<string>, contentType: Option<string>, size: Option<int>)

  /** Five exact types, `image/x-png`, or anything that starts with `image/png`. */
  predicate IsValidType(contentType: string)
  {
    || contentType == "video/mp4"
    || contentType == "video/webm"
    || contentType == "image/jpeg"
    || StartsWith(contentType, "image/png")
    || contentType == "image/gif"
    || contentType == "image/x-png"
  }

  /** `image/x-png` is looked up in the table as `image/png`. */
  function NormalizedType(contentType: string): (t: string)
    ensures contentType == "image/x-png" ==> t == "image/png"
    ensures contentType != "image/x-png" ==> t == contentType
    ensures t != "image/x-png"
  {
    if contentType == "image/x-png" then "image/png" else contentType
  }

  /** `getExtension`: the filename suffix, else the table entry of the normalised type, else nothing. */
  function GetExtension(filename: string, contentType: string): (ext: string)
    ensures SuffixExtension(filename).Some? ==> ext == SuffixExtension(filename).value
    ensures SuffixExtension(filename).None? && contentType == "image/x-png" ==> ext == ".png"
  {
    ExtensionOf(filename, NormalizedType(contentType))
  }

  /** Among the accepted types, the table knows the normalised type unless it is an `image/png` variant other than `image/png`. */
  lemma NormalizedTypeInTable(contentType: string)
    requires IsValidType(contentType)
    ensures NormalizedType(contentType) in TypeMap
        <==> !(StartsWith(contentType, "image/png") && contentType != "image/png")
  {
    TypeMapKeys();
    if StartsWith(contentType, "image/png") {
      assert contentType[0] == contentType[..9][0] == 'i';
      assert contentType[6] == contentType[..9][6] == 'p';
      assert "video/mp4"[0] == 'v' && "video/webm"[0] == 'v';
      assert "image/jpeg"[6] == 'j' && "image/gif"[6] == 'g' && "image/x-png"[6] == 'x';
    }
  }

  /**
   * Of the accepted types, exactly the `image/png` variants other than
   * `image/png` itself (a parameter or any other tail) get no extension when
   * the filename has none.
   */
  lemma AcceptedTypeExtension(filename: string, contentType: string)
    requires IsValidType(contentType) && SuffixExtension(filename).None?
    ensures GetExtension(filename, contentType) == ""
        <==> StartsWith(contentType, "image/png") && contentType != "image/png"
  {
    NormalizedTypeInTable(contentType);
  }

  /** `image/png;name=x` is accepted, and a file of that type without a suffix is stored with no extension. */
  lemma PngWithParameterHasNoExtension()
    ensures IsValidType("image/png;name=x")
    ensures GetExtension("photo", "image/png;name=x") == ""
  {
    assert "image/png;name=x"[..9] == "image/png";
    assert AlnumRun("photo") == 5 by {
      AlnumRunMaximal("photo", 0);
    }
    AcceptedTypeExtension("photo", "image/png;name=x");
  }

  /**
   * `onRequestPost` after authentication. `body` is `None` when the request
   * body is not JSON or is `null` (other JSON values read as missing fields); `uuid` and `now` stand for `crypto.randomUUID()`
   * and the signer's clock reading.
   */
  function Handle(p: S3Signer.Primitives, env: StorageEnv, body: Option<PostBody>, uuid: string, now: string): (r: UploadResponse)
    ensures body.None? ==> r.Rejected? && r.status == 500
    ensures body.Some? && (!Truthy(body.value.filename) || !Truthy(body.value.contentType))
            ==> r == Rejected(400, MissingFields)
    ensures r.Issued? <==> && body.Some? && Truthy(body.value.filename) && Truthy(body.value.contentType)
                           && IsValidType(body.value.contentType.value) && !SizeRejected(body.value.size)
    ensures r == Rejected(400, TooLarge) <==> && body.Some? && Truthy(body.value.filename) && Truthy(body.value.contentType)
                                              && IsValidType(body.value.contentType.value) && SizeRejected(body.value.size)
    ensures r == Rejected(400, InvalidType) <==> && body.Some? && Truthy(body.value.filename) && Truthy(body.value.contentType)
                                                 && !IsValidType(body.value.contentType.value)
    ensures r.Issued? ==> r == IssueUpload(p, env, body.value.contentType.value,
                                           GetExtension(body.value.filename.value, body.value.contentType.value), uuid, now)
  {
    if body.None? then Rejected(500, "Failed to generate upload URL")
    else
      var b := body.value;
      if !Truthy(b.filename) || !Truthy(b.contentType) then Rejected(400, MissingFields)
      else if !IsValidType(b.contentType.value) then Rejected(400, InvalidType)
      else if SizeRejected(b.size) then Rejected(400, TooLarge)
      else IssueUpload(p, env, b.contentType.value, GetExtension(b.filename.value, b.contentType.value), uuid, now)
  }
}
