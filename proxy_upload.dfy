/**
 * `POST /api/proxy-upload`: the fallback path where the file travels through
 * the worker. The endpoint presigns a PUT for a fresh key, sends the file to
 * storage itself and, only when storage answered ok, records the file in the
 * database.
 */
module ProxyUpload {
  import opened Wrappers
  import opened Text
  import opened UploadRules
  import S3Signer
  import PresignedPost

  /** The uploaded `File` part: its name, its declared type and its size in bytes. */
  datatype FormFile = FormFile(name: string, contentType: string, size: nat)

  /** The multipart form: the `file` part and the optional `filename` field. */
  datatype ProxyForm = ProxyForm(file: Option<FormFile>, filenameField: Option<string>)

  /** `formData.get('filename') || file?.name || 'unnamed'` */
  function ChosenFilename(form: ProxyForm): (name: string)
    ensures name != ""
    ensures Truthy(form.filenameField) ==> name == form.filenameField.value
    ensures !Truthy(form.filenameField) && form.file.Some? && form.file.value.name != "" ==> name == form.file.value.name
    ensures name == "unnamed" <==> (!Truthy(form.filenameField) || form.filenameField.value == "unnamed")
                                   && (form.file.None? || form.file.value.name == "" || form.file.value.name == "unnamed"
                                       || Truthy(form.filenameField))
  {
    if Truthy(form.filenameField) then form.filenameField.value
    else if form.file.Some? && form.file.value.name != "" then form.file.value.name
    else "unnamed"
  }

  /** The 100 MiB cap of the worker path. */
  const MaxProxySize: int := 100 * 1024 * 1024

  /** `thumbnailUrl`: the public URL of the object for images, `null` for everything else. */
  function Thumbnail(contentType: string, publicUrl: string, b2Key: string): (url: Option<string>)
    ensures url.Some? <==> StartsWith(contentType, "image/")
    ensures url.Some? ==> StartsWith(url.value, publicUrl + "/") && url.value[|publicUrl| + 1..] == b2Key
  {
    if StartsWith(contentType, "image/") then
      var u := publicUrl + "/" + b2Key;
      assert u == (publicUrl + "/") + b2Key;
      Some(u)
    else None
  }

  /** Videos never get a thumbnail, and everything with a thumbnail is filed under `images`. */
  lemma ThumbnailOnlyForImages(contentType: string, publicUrl: string, b2Key: string)
    ensures Thumbnail(contentType, publicUrl, b2Key).Some? ==> Folder(contentType) == "images"
    ensures Folder(contentType) == "videos" ==> Thumbnail(contentType, publicUrl, b2Key).None?
  {
    if |contentType| >= 6 {
      assert StartsWith(contentType, "image/") ==> contentType[0] == contentType[..6][0] == 'i';
      assert StartsWith(contentType, "video/") ==> contentType[0] == contentType[..6][0] == 'v';
    }
  }

  /** The row inserted into the `files` table. */
  datatype FileRow = FileRow(
    id: string,
    filename: string,
    contentType: string,
    size: nat,
    uploadDate: string,
    b2Key: string,
    thumbnailUrl: Option<string>,
    description: Option<string>)

  /** What the handler does to the outside world, in order. */
  datatype Effect =
    | PutObject(url: string, contentType: string, contentLength: string)
    | InsertRow(row: FileRow)

  datatype ProxyResponse =
    | Failed(status: int, error: string)
    | Uploaded(fileId: string, b2Key: string, uploadDate: string)

  /** The response and the effects performed before it was sent. */
  datatype ProxyOutcome = ProxyOutcome(response: ProxyResponse, effects: seq<Effect>)

  const NoFile: string := "No file provided"
  const ProxyInvalidType: string := "Invalid file type. Supported: MP4, WebM, JPG, PNG, GIF"
  const ProxyTooLarge: string := "File too large for proxy upload (max 100MB). Please configure B2 CORS for larger files."
  const ProxyFailure: string := "Upload failed"

  /** The database row for an accepted file, given everything the handler has chosen so far. */
  function RowFor(env: StorageEnv, fileId: string, filename: string, file: FormFile, b2Key: string, uploadDate: string): (row: FileRow)
    ensures row.id == fileId && row.b2Key == b2Key && row.size == file.size && row.description.None?
    ensures row.thumbnailUrl.Some? <==> StartsWith(file.contentType, "image/")
  {
    FileRow(fileId, filename, file.contentType, file.size, uploadDate, b2Key,
            Thumbnail(file.contentType, env.publicUrl, b2Key), None)
  }

  /**
   * `onRequestPost` after authentication. `form` is `None` when the body is
   * not a multipart form; `uuid`, `now` and `uploadDate` stand for the UUID and
   * the two clock readings; `upload` is the storage's answer to the PUT and
   * `insert` whether the database reported success for a row.
   */
  function Handle(p: S3Signer.Primitives, env: StorageEnv, form: Option<ProxyForm>, uuid: string, now: string,
                  uploadDate: string, upload: string -> S3Signer.FetchOutcome, insert: FileRow -> bool): (out: ProxyOutcome)
    ensures |out.effects| <= 2
    ensures form.None? ==> out == ProxyOutcome(Failed(500, ProxyFailure), [])
    ensures form.Some? && form.value.file.None? ==> out == ProxyOutcome(Failed(400, NoFile), [])
    // rejected files are never sent anywhere
    ensures form.Some? && form.value.file.Some? && !PresignedPost.IsValidType(form.value.file.value.contentType) ==>
              out == ProxyOutcome(Failed(400, ProxyInvalidType), [])
    ensures form.Some? && form.value.file.Some? && PresignedPost.IsValidType(form.value.file.value.contentType)
            && form.value.file.value.size > MaxProxySize ==>
              out == ProxyOutcome(Failed(400, ProxyTooLarge), [])
    // an accepted file is PUT first, with its type and its length in decimal
    ensures form.Some? && form.value.file.Some? && PresignedPost.IsValidType(form.value.file.value.contentType)
            && form.value.file.value.size <= MaxProxySize ==>
              var file := form.value.file.value;
              var b2Key := ObjectKey(Folder(file.contentType), FileIdFromUuid(uuid),
                                     PresignedPost.GetExtension(ChosenFilename(form.value), file.contentType));
              var url := S3Signer.PresignedPutUrl(p, PutOptions(env, b2Key), file.contentType, now);
              && |out.effects| >= 1
              && out.effects[0] == PutObject(url, file.contentType, NatDecimal(file.size))
              // a PUT that storage accepted is followed by the insert, and one it refused ends the request
              && (upload(url).Responded? && S3Signer.IsOkStatus(upload(url).status) ==> |out.effects| == 2)
              && (!(upload(url).Responded? && S3Signer.IsOkStatus(upload(url).status)) ==>
                    out == ProxyOutcome(Failed(500, ProxyFailure), [out.effects[0]]))
    ensures out.response.Failed? && out.response.status == 400 ==> out.effects == []
    ensures out.response.Failed? ==> out.response.status == 400 || out.response.status == 500
    ensures |out.effects| >= 1 ==> out.effects[0].PutObject? && form.Some? && form.value.file.Some?
    // no row is written unless storage accepted the file
    ensures |out.effects| == 2 ==> out.effects[1].InsertRow?
                                   && upload(out.effects[0].url).Responded?
                                   && S3Signer.IsOkStatus(upload(out.effects[0].url).status)
    ensures |out.effects| == 2 ==>
              var file := form.value.file.value;
              var filename := ChosenFilename(form.value);
              var b2Key := ObjectKey(Folder(file.contentType), FileIdFromUuid(uuid), PresignedPost.GetExtension(filename, file.contentType));
              && out.effects[0].url == S3Signer.PresignedPutUrl(p, PutOptions(env, b2Key), file.contentType, now)
              && out.effects[1].row == RowFor(env, FileIdFromUuid(uuid), filename, file, b2Key, uploadDate)
    ensures out.response.Uploaded? ==> |out.effects| == 2 && insert(out.effects[1].row)
                                       && out.effects[1].row.id == out.response.fileId
                                       && out.effects[1].row.b2Key == out.response.b2Key
    ensures out.response.Uploaded? <==> && form.Some? && form.value.file.Some?
                                        && PresignedPost.IsValidType(form.value.file.value.contentType)
                                        && form.value.file.value.size <= MaxProxySize
                                        && |out.effects| == 2 && insert(out.effects[1].row)
  {
    if form.None? then ProxyOutcome(Failed(500, ProxyFailure), [])
    else
      var filename := ChosenFilename(form.value);
      if form.value.file.None? then ProxyOutcome(Failed(400, NoFile), [])
      else
        var file := form.value.file.value;
        if !PresignedPost.IsValidType(file.contentType) then ProxyOutcome(Failed(400, ProxyInvalidType), [])
        else if file.size > MaxProxySize then ProxyOutcome(Failed(400, ProxyTooLarge), [])
        else
          var fileId := FileIdFromUuid(uuid);
          var b2Key := ObjectKey(Folder(file.contentType), fileId, PresignedPost.GetExtension(filename, file.contentType));
          var url := S3Signer.PresignedPutUrl(p, PutOptions(env, b2Key), file.contentType, now);
          var put := PutObject(url, file.contentType, NatDecimal(file.size));
          var response := upload(url);
          if response.NetworkError? || !S3Signer.IsOkStatus(response.status) then
            ProxyOutcome(Failed(500, ProxyFailure), [put])
          else
            var row := RowFor(env, fileId, filename, file, b2Key, uploadDate);
            if !insert(row) then ProxyOutcome(Failed(500, ProxyFailure), [put, InsertRow(row)])
            else ProxyOutcome(Uploaded(fileId, b2Key, uploadDate), [put, InsertRow(row)])
  }

  /**
   * A file that storage accepted is recorded with the key it was stored
   * under, the chosen filename, a thumbnail exactly when it is an image, and
   * an id cut from the UUID.
   */
  lemma InsertedRow(p: S3Signer.Primitives, env: StorageEnv, form: Option<ProxyForm>, uuid: string, now: string,
                    uploadDate: string, upload: string -> S3Signer.FetchOutcome, insert: FileRow -> bool)
    requires |Handle(p, env, form, uuid, now, uploadDate, upload, insert).effects| == 2
    ensures var out := Handle(p, env, form, uuid, now, uploadDate, upload, insert);
            var row := out.effects[1].row;
            var file := form.value.file.value;
            && row.id == FileIdFromUuid(uuid)
            && row.filename == ChosenFilename(form.value)
            && row.b2Key == ObjectKey(Folder(file.contentType), row.id, PresignedPost.GetExtension(row.filename, file.contentType))
            && (row.thumbnailUrl.Some? <==> StartsWith(file.contentType, "image/"))
            && (row.thumbnailUrl.Some? ==> row.thumbnailUrl.value == env.publicUrl + "/" + row.b2Key)
  {
    var out := Handle(p, env, form, uuid, now, uploadDate, upload, insert);
    var file := form.value.file.value;
    var filename := ChosenFilename(form.value);
    var b2Key := ObjectKey(Folder(file.contentType), FileIdFromUuid(uuid), PresignedPost.GetExtension(filename, file.contentType));
    assert out.effects[1].row == RowFor(env, FileIdFromUuid(uuid), filename, file, b2Key, uploadDate);
  }
}
