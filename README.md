# Upload signing and file index of contenthosting.org

This project models, in Dafny, the upload path of the contenthosting.org
Cloudflare Pages functions and proves properties of the model. Files live in a
Backblaze B2 bucket that is reached through its S3-compatible API.

- **`_s3-signer.ts`** builds AWS Signature Version 4 presigned URLs:
  - the compact `X-Amz-Date` timestamp;
  - the credential scope;
  - the five sorted and encoded query parameters;
  - the canonical request and the string to sign;
  - the HMAC key chain and the signature.

  It also wraps PUT, GET and DELETE (`deleteObject`) around that core.
- **`presigned-post.ts`, `upload-url.ts` and `proxy-upload.ts`** check an upload
  request, derive an object key `folder/fileId.ext` and presign a PUT for it. The proxy
  endpoint also sends the file itself and records it in the database.
- **`register.js` and `delete.ts`** keep a key-value store with one record
  `file:{id}` per file and a list `file_index` of ids, newest first.

Modules:

- `Wrappers`: Option and Result.
- `Text`: the string helpers the source relies on:
  - `TextEncoder` (UTF-8);
  - byte-to-hex;
  - `toString` of integers;
  - `substring`, `startsWith` and `toLowerCase` on ASCII letters;
  - the default `sort` order.
- `Uri`: `encodeURIComponent`, with the percent-decoding that inverts it.
- `S3Signer`: the signer.
- `UploadRules`: what the three upload endpoints share.
- `PresignedPost`, `UploadUrl` and `ProxyUpload`: the three endpoints.
- `FileIndex`: the key-value store, as the class `FileStore` with the methods `Register` and `Delete`.

Effects become inputs:

- **The clock:** the timestamp string `new Date().toISOString()` returns.
- **`crypto.randomUUID()`:** the UUID string.
- **SHA-256 and HMAC-SHA256:** `Primitives`, a pair of total functions returning 32 bytes.
- **`fetch`:** a function from URL to a status or a network error.
- **The database insert:** a function from row to success.
- **`deleteObject` as seen by `delete.ts`:** a function from object key to its result or failure.

Where AWS Signature Version 4 query-string authentication (S3 API Reference, "Authenticating Requests: Using Query Parameters") and the code disagree, the model
follows the code:

- **Path:** it is `/bucket/key` with no percent-encoding of its segments.
- **Host:** it goes into the signed `host:` line as configured, not lower-cased (`HostCaseIsSigned`).
- **Query encoding:** names and values use `encodeURIComponent`, which leaves `!'()*` unescaped.
- **Signing key:** `hmac` returns raw bytes only when its key is a string starting with
  `AWS4`. So only the first link of the key chain is raw; the later links and the
  signing key are 64-character hex text, and the final HMAC is keyed by that text.
  `SigningKeyDivergesFromSigV4` states where this departs from the byte chain of
  Signature Version 4.

## Model

| member | source | states |
|---|---|---|
| Text.StartsWith | functions/api/presigned-post.ts:44 | `startsWith`: no contract of its own; `Folder`, `Thumbnail` and `AcceptedTypeExtension` state what each prefix test decides |
| Text.Prefix | functions/api/_s3-signer.ts:114 | `substring(0, n)` keeps at most the first `n` characters and is a prefix of the input |
| Text.Utf8Char | functions/api/_s3-signer.ts:174 | `TextEncoder` writes one to four bytes per character, one byte exactly for ASCII, and that byte is the code |
| Text.Utf8 | functions/api/_s3-signer.ts:182 | `TextEncoder.encode`: no contract of its own; `Utf8Append`, `Utf8OfAscii` and `Utf8Length` state how it behaves |
| Text.Utf8Append | functions/api/_s3-signer.ts:182 | encoding a concatenation is the concatenation of the encodings |
| Text.Utf8OfAscii | functions/api/_s3-signer.ts:174 | an ASCII string encodes to its own character codes, byte for byte |
| Text.Utf8Length | functions/api/_s3-signer.ts:174 | the encoding is never shorter than the text, and equally long exactly when the text is ASCII |
| Text.HexByte | functions/api/_s3-signer.ts:189 | `b.toString(16).padStart(2, '0')` gives two lowercase hex digits |
| Text.Hex | functions/api/_s3-signer.ts:188-190 | the hex rendering has two lowercase hex digits per byte |
| Text.HexDigitValue | functions/api/_s3-signer.ts:189 | a digit has a value below 16 exactly when it is a decimal digit or a hex letter of either case |
| Text.HexRoundTrip | functions/api/_s3-signer.ts:198-200 | decoding the hex rendering gives back the bytes: the digest is recoverable from `sha256`'s output |
| Text.LowerHexNotAws4 | functions/api/_s3-signer.ts:185 | lowercase hex text never starts with `AWS4`, so `hmac` returns hex for any hex key |
| Text.LowerHexIsAscii | functions/api/_s3-signer.ts:174 | lowercase hex text is ASCII |
| Text.DigitChar | functions/api/_s3-signer.ts:124 | a digit below ten renders as a decimal digit character |
| Text.NatDecimal | functions/api/_s3-signer.ts:124 | `toString()` of a natural number is a non-empty run of decimal digits |
| Text.IntDecimal | functions/api/_s3-signer.ts:124 | `expiresIn.toString()`: no contract of its own; `IntDecimalRoundTrip` states that it reads back as the number |
| Text.NatDecimalRoundTrip | functions/api/_s3-signer.ts:124 | reading the digits back gives the number, and there is no leading zero except for 0 itself |
| Text.IntDecimalRoundTrip | functions/api/_s3-signer.ts:124 | parsing `expiresIn.toString()`, with its minus sign for negatives, gives back `expiresIn` |
| Text.AsciiLowerChar | functions/api/presigned-post.ts:116 | lower-casing keeps a letter or digit a letter or digit and leaves no uppercase letter |
| Text.AsciiLower | functions/api/presigned-post.ts:116 | `toLowerCase()` keeps the length and lower-cases each character |
| Text.LexTotal | functions/api/_s3-signer.ts:130 | the order `sort()` uses relates any two distinct strings one way or the other |
| Text.LexAsymmetric | functions/api/_s3-signer.ts:130 | that order is asymmetric |
| Text.LexIrreflexive | functions/api/_s3-signer.ts:130 | no string precedes itself |
| Text.LexLessAfterCommonPrefix | functions/api/_s3-signer.ts:130 | after a common prefix, the first differing character decides the order |
| Uri.PercentBytes | functions/api/_s3-signer.ts:131 | each escaped byte takes three characters `%XX` |
| Uri.EncodeChar | functions/api/_s3-signer.ts:131 | `encodeURIComponent` leaves a character as one character exactly when it is unreserved |
| Uri.EncodeUriComponent | functions/api/_s3-signer.ts:131 | `encodeURIComponent`: no contract of its own; `EncodeLength`, `EncodeIdentity`, `EncodeIsEncoded` and `DecodeEncode` state what it produces |
| Uri.EncodeAppend | functions/api/_s3-signer.ts:131 | encoding works character by character: it distributes over concatenation |
| Uri.EncodeLength | functions/api/_s3-signer.ts:131 | encoding never shortens, and keeps the length exactly when every character is unreserved |
| Uri.EncodeIdentity | functions/api/_s3-signer.ts:131 | encoding leaves a string unchanged exactly when every character is unreserved |
| Uri.EncodeSlash | functions/api/_s3-signer.ts:122 | the `/` of the credential is written `%2F` |
| Uri.DecodePercentBytes | functions/api/_s3-signer.ts:131 | percent-decoding inverts the `%XX` escapes of any byte string |
| Uri.DecodeEncode | functions/api/_s3-signer.ts:131 | percent-decoding an encoded component gives the UTF-8 bytes of the original text |
| Uri.PercentBytesEncoded | functions/api/_s3-signer.ts:131 | escaped bytes followed by an encoded string are an encoded string |
| Uri.EncodeIsEncoded | functions/api/_s3-signer.ts:131 | the output holds only unreserved characters and well-formed `%XX` escapes with uppercase hex |
| S3Signer.AmzDateKeepsDigits | functions/api/_s3-signer.ts:113 | the timestamp rewrite keeps a run of digits as it is |
| S3Signer.AmzDateDropsSeparator | functions/api/_s3-signer.ts:113 | every `:` and `-` is removed |
| S3Signer.AmzDateDropsFraction | functions/api/_s3-signer.ts:113 | a `.` followed by three digits is removed together with them |
| S3Signer.AmzDateKeepsLetter | functions/api/_s3-signer.ts:113 | any character other than `:`, `-` and `.` is kept in place |
| S3Signer.AmzDateHasNoSeparators | functions/api/_s3-signer.ts:113 | the result contains no `:` and no `-` |
| S3Signer.AmzDateOfIso | functions/api/_s3-signer.ts:113-114 | for an ISO timestamp `amzDate` is exactly `YYYYMMDDTHHMMSSZ` (16 characters) and `dateStamp` is its date `YYYYMMDD` |
| S3Signer.AmzDate | functions/api/_s3-signer.ts:113 | the regex replacement: no contract of its own; `AmzDateHasNoSeparators` and `AmzDateOfIso` state its result |
| S3Signer.DateStamp | functions/api/_s3-signer.ts:114 | `substring(0, 8)`: no contract of its own; `AmzDateOfIso` states it is the `YYYYMMDD` date |
| S3Signer.CredentialScope | functions/api/_s3-signer.ts:116-117 | `date/region/s3/aws4_request`: no contract of its own; `CredentialEncoded` states how it appears in the URL |
| S3Signer.QueryParams | functions/api/_s3-signer.ts:120-126 | the five parameters: no contract of its own; `QueryParamsAscending` states they are already in sorted order |
| S3Signer.Insert | functions/api/_s3-signer.ts:130 | inserting adds exactly the new parameter to the multiset of the others, and the new head is the parameter or the old head |
| S3Signer.SortByName | functions/api/_s3-signer.ts:130 | sorting keeps the number of parameters |
| S3Signer.InsertSorted | functions/api/_s3-signer.ts:130 | inserting into a sorted list keeps it sorted and adds exactly one element |
| S3Signer.SortByNameCorrect | functions/api/_s3-signer.ts:129-130 | `sort()` returns the same parameters (as a multiset) in non-decreasing name order |
| S3Signer.SortByNameOfSorted | functions/api/_s3-signer.ts:130 | sorting an already sorted list changes nothing |
| S3Signer.ParamNamesAscending | functions/api/_s3-signer.ts:120-126 | the five names, in the order they are written, are strictly ascending |
| S3Signer.QueryParamsAscending | functions/api/_s3-signer.ts:119-130 | the parameters are strictly ascending by name, so sorting leaves them as written |
| S3Signer.EncodePairs | functions/api/_s3-signer.ts:131 | each parameter becomes `encode(name)=encode(value)`, one entry per parameter |
| S3Signer.CanonicalQueryString | functions/api/_s3-signer.ts:129-132 | no contract of its own; `CanonicalQueryStringExplicit` and `CanonicalQueryIsSigV4` state the string it builds |
| S3Signer.CanonicalRequest | functions/api/_s3-signer.ts:135-142 | no contract of its own; `CanonicalRequestLines` states its lines and `HostDetermined` that it determines the host |
| S3Signer.StringToSign | functions/api/_s3-signer.ts:145-150 | no contract of its own; `StringToSignLines` states its four lines |
| S3Signer.CanonicalRequestLines | functions/api/_s3-signer.ts:135-142 | the canonical request is method, path, query, `host:` line, an empty line, `host` and `UNSIGNED-PAYLOAD`, separated by newlines |
| S3Signer.StringToSignLines | functions/api/_s3-signer.ts:145-150 | the string to sign is the algorithm, `amzDate`, the scope and the request hash on four lines |
| S3Signer.Sha256Hex | functions/api/_s3-signer.ts:196-200 | the hash is 64 lowercase hex digits that decode to the SHA-256 digest of the UTF-8 text |
| S3Signer.Hmac | functions/api/_s3-signer.ts:173-191 | `hmac` returns raw bytes exactly when its key is text starting with `AWS4`; the bytes are the MAC; otherwise 64 lowercase hex digits that decode to the MAC |
| S3Signer.SigningKey | functions/api/_s3-signer.ts:163-168 | the signing key is 64 characters of lowercase hex text |
| S3Signer.SigningKeyChain | functions/api/_s3-signer.ts:163-168 | only `kDate` is raw; `kRegion`, `kService` and the signing key are hex text, each keyed by the previous link |
| S3Signer.SigningKeyDivergesFromSigV4 | functions/api/_s3-signer.ts:164-167 | `kDate` agrees with the Signature Version 4 chain, but the signing key is 64 ASCII bytes of hex rather than the 32-byte MAC of that chain |
| S3Signer.Signature | functions/api/_s3-signer.ts:153-154 | the signature is 64 lowercase hex digits |
| S3Signer.PresignedUrl | functions/api/_s3-signer.ts:157 | the URL starts with `https://`, host, path and `?`; it ends with `&X-Amz-Signature=` and 64 hex digits |
| S3Signer.DecimalUnencoded | functions/api/_s3-signer.ts:124 | the decimal expiry is left alone by encoding |
| S3Signer.TokensUnreserved | functions/api/_s3-signer.ts:116-126 | the parameter names, the algorithm, `host`, `s3` and `aws4_request` contain only unreserved characters |
| S3Signer.ConstantValuesUnencoded | functions/api/_s3-signer.ts:121-125 | the algorithm and `host` values are written unencoded |
| S3Signer.SortedEncodedPairs | functions/api/_s3-signer.ts:129-131 | the sorted, encoded pairs are the five parameters in order, with only the credential and date values encoded |
| S3Signer.CanonicalQueryStringExplicit | functions/api/_s3-signer.ts:129-132 | the canonical query string is the five `name=value` pairs in ascending name order, joined by `&` |
| S3Signer.EncodeAroundSlash | functions/api/_s3-signer.ts:122 | encoding `x/y` gives `encode(x)%2Fencode(y)` |
| S3Signer.EncodeScope | functions/api/_s3-signer.ts:117 | encoding the scope turns its three `/` into `%2F` and keeps the date, `s3` and `aws4_request` |
| S3Signer.CredentialEncoded | functions/api/_s3-signer.ts:117-122 | the credential appears as `encode(accessKeyId)%2FYYYYMMDD%2Fencode(region)%2Fs3%2Faws4_request` |
| S3Signer.CompactTimestampUnencoded | functions/api/_s3-signer.ts:123 | `amzDate` is written unencoded and its date part is all digits |
| S3Signer.CanonicalQueryIsSigV4 | functions/api/_s3-signer.ts:116-132 | for a compact timestamp the canonical query string is the Signature Version 4 five-parameter block |
| S3Signer.PresignedUrlExplicit | functions/api/_s3-signer.ts:108-157 | for a well-formed timestamp the URL is exactly `https://host/bucket/key?` + the sorted block + `&X-Amz-Signature=` + signature; every date comes from the one clock reading |
| S3Signer.RequestHashExplicit | functions/api/_s3-signer.ts:135-149 | the hashed canonical request has the unencoded path, the query string and the `host:` line, with the blank line before `host` |
| S3Signer.SignatureExplicit | functions/api/_s3-signer.ts:145-154 | the signature is the hex HMAC of the four-line string to sign, keyed by the UTF-8 bytes of the hex signing key |
| S3Signer.HostDetermined | functions/api/_s3-signer.ts:108-142 | for any method, path and query, equal canonical requests have equal hosts: the host goes in as configured |
| S3Signer.HostCaseIsSigned | functions/api/_s3-signer.ts:108-142 | `Example.com` and `example.com` give different canonical requests: the host is not lower-cased |
| S3Signer.PutUrlForm | functions/api/_s3-signer.ts:13-33 | a PUT URL expires after 3600 seconds unless told otherwise, and does not depend on `contentType` |
| S3Signer.PresignedPutUrl | functions/api/_s3-signer.ts:13-33 | no contract of its own; `PutUrlForm` states the URL it returns |
| S3Signer.GetUrlForm | functions/api/_s3-signer.ts:38-57 | a GET URL expires after 1800 seconds unless told otherwise |
| S3Signer.PresignedGetUrl | functions/api/_s3-signer.ts:38-57 | no contract of its own; `GetUrlForm` states the URL it returns |
| S3Signer.DeleteUrlForm | functions/api/_s3-signer.ts:62-79 | `deleteObject` signs a DELETE valid for 60 seconds |
| S3Signer.DeleteObjectUrl | functions/api/_s3-signer.ts:70-79 | no contract of its own; `DeleteUrlForm` states the URL it returns |
| S3Signer.DeleteResult | functions/api/_s3-signer.ts:81-82 | a response is read as failure exactly when the fetch is rejected; otherwise as true exactly when the status is 2xx or 404 |
| S3Signer.DeleteObject | functions/api/_s3-signer.ts:62-83 | fetches the 60-second DELETE URL once; fails exactly when that fetch is rejected, otherwise true exactly when its status is 2xx or 404 |
| UploadRules.AlnumRun | functions/api/presigned-post.ts:115 | measures the maximal run of ASCII letters and digits that ends the name |
| UploadRules.SuffixExtension | functions/api/presigned-post.ts:115-116 | a match is a `.` and at least one character, every one a letter or digit with no uppercase |
| UploadRules.SuffixExtensionSpec | functions/api/presigned-post.ts:115-116 | `/\.[a-zA-Z0-9]+$/` matches exactly when some `.` is followed, up to the end, by one or more ASCII letters and digits; the extension is then that suffix lower-cased |
| UploadRules.TypeExtension | functions/api/presigned-post.ts:128 | `typeMap[t] \|\| ''` is non-empty exactly for the types of the table |
| UploadRules.TypeMapKeys | functions/api/presigned-post.ts:120-126 | the table lists exactly the five types, each with an extension `.xxx` |
| UploadRules.ExtensionOf | functions/api/presigned-post.ts:113-129 | the filename suffix wins; otherwise the extension is non-empty exactly when the lookup type is in the table; it is always empty or starts with `.` |
| UploadRules.Folder | functions/api/presigned-post.ts:68 | the folder is `videos` exactly when the type starts with `video/`, `images` otherwise |
| UploadRules.ObjectKey | functions/api/presigned-post.ts:72 | `folder/fileId+extension`: no contract of its own; `ObjectKeyInjective` and `KeyLayout` state its layout |
| UploadRules.ObjectKeyInjective | functions/api/presigned-post.ts:72 | with six-letter folders and ids of equal length, the key determines folder, id and extension |
| UploadRules.RemoveDashes | functions/api/presigned-post.ts:65 | removing dashes leaves no dash and never lengthens |
| UploadRules.FileIdFromUuid | functions/api/presigned-post.ts:65 | the id has at most 12 characters |
| UploadRules.FileIdOfUuid | functions/api/presigned-post.ts:65 | for a UUID the id is its first two groups: 12 lowercase hex digits |
| UploadRules.PutOptions | functions/api/presigned-post.ts:75-84 | the PUT is for the object key in the configured bucket, valid for 3600 seconds |
| UploadRules.IssueUpload | functions/api/presigned-post.ts:65-90 | an issued upload carries the id cut from the UUID, the key `folder/id+ext` and the presigned PUT URL for that key |
| UploadRules.SizeRejected | functions/api/presigned-post.ts:56-57 | `size && size > maxSize`: no contract of its own; both `Handle` contracts state that it decides `File too large` |
| UploadRules.IssuedUrlForm | functions/api/presigned-post.ts:75-84 | for a well-formed clock reading the issued URL is the Signature Version 4 PUT URL for the key, with `X-Amz-Expires=3600` |
| UploadRules.KeyLayout | functions/api/presigned-post.ts:68-72 | a key starts with `videos/` exactly for video types and reads folder, id, extension in turn |
| PresignedPost.IsValidType | functions/api/presigned-post.ts:40-46 | the six accepted forms: no contract of its own; `AcceptedTypeExtension` and `Handle` state what acceptance leads to |
| PresignedPost.NormalizedType | functions/api/presigned-post.ts:119 | `image/x-png` becomes `image/png`, every other type is kept, and `image/x-png` never comes out |
| PresignedPost.GetExtension | functions/api/presigned-post.ts:113-129 | the filename suffix wins; without one, `image/x-png` gets `.png` |
| PresignedPost.NormalizedTypeInTable | functions/api/presigned-post.ts:119-128 | among accepted types, the table knows the normalised type unless it is an `image/png` variant other than `image/png` |
| PresignedPost.AcceptedTypeExtension | functions/api/presigned-post.ts:113-128 | without a filename suffix, exactly the accepted `image/png…` variants other than `image/png` get no extension |
| PresignedPost.PngWithParameterHasNoExtension | functions/api/presigned-post.ts:119-128 | `image/png;name=x` is accepted and a file `photo` of that type gets an empty extension |
| PresignedPost.Handle | functions/api/presigned-post.ts:28-107 | unparseable body gives 500; a missing or empty field gives 400 before any other check; the upload is issued exactly for a valid type and a size that is absent, zero or at most 500 MiB; a valid type with too large a size is 400 `File too large (max 500MB)`; an invalid type is 400 `Invalid file type`, exactly when the fields are present and the type is not accepted |
| UploadUrl.GetExtension | functions/api/upload-url.ts:102-117 | the filename suffix wins; the type is looked up as given |
| UploadUrl.IsAllowedType | functions/api/upload-url.ts:40-41 | `allowedTypes.includes`: no contract of its own; `AllowedTypesAreTableKeys` and `NarrowerThanPresignedPost` state which types it admits |
| UploadUrl.AllowedTypesAreTableKeys | functions/api/upload-url.ts:108-114 | the allowed list and the table name the same five types |
| UploadUrl.AcceptedTypeHasExtension | functions/api/upload-url.ts:108-116 | every accepted type gets a non-empty extension starting with `.` |
| UploadUrl.NarrowerThanPresignedPost | functions/api/upload-url.ts:40-41 | every type accepted here is accepted by `presigned-post`, with the same extension; `image/x-png` and `image/png;name=x` are accepted there only |
| UploadUrl.Handle | functions/api/upload-url.ts:28-96 | unparseable body gives 500; missing fields give 400; a type outside the list gives 400 `Invalid file type`; otherwise it is issued unless the size is over 500 MiB, which gives 400 `File too large (max 500MB)` exactly for an allowed type |
| UploadUrl.IssuedKeyHasExtension | functions/api/upload-url.ts:61-65 | every issued key ends in a non-empty extension |
| ProxyUpload.ChosenFilename | functions/api/proxy-upload.ts:34 | the `filename` field if non-empty, else the file's own name if non-empty, else `unnamed`; never empty |
| ProxyUpload.Thumbnail | functions/api/proxy-upload.ts:117-120 | a thumbnail exists exactly for `image/` types and is the public URL, `/`, and the key |
| ProxyUpload.ThumbnailOnlyForImages | functions/api/proxy-upload.ts:117-120 | a file with a thumbnail is filed under `images`, and a video never has one |
| ProxyUpload.RowFor | functions/api/proxy-upload.ts:122-134 | the inserted row has the id, key and size of the upload, no description, and a thumbnail exactly for images |
| ProxyUpload.Handle | functions/api/proxy-upload.ts:30-162 | a body that is not a form gives 500 and no file gives 400, with no effect; an invalid type or a size over 100 MiB gives its own 400 with no effect; an accepted file is PUT first to the presigned URL of its key with its type and decimal length; an ok PUT is followed by the insert of its row, and any other answer ends with 500 after the PUT alone; success exactly for a valid type, size at most 100 MiB, and a successful insert |
| ProxyUpload.InsertedRow | functions/api/proxy-upload.ts:122-134 | the recorded row has the UUID-derived id, the chosen filename, the key it was stored under, and a thumbnail `publicUrl/key` exactly for images |
| FileIndex.RecordKeys | functions/api/register.js:41 | distinct ids have distinct `file:` keys, none equal to `file_index` |
| FileIndex.RecordKey | functions/api/register.js:41 | `file:${fileId}`: no contract of its own; `RecordKeys` states it is injective and never the index key |
| FileIndex.HasRequiredFields | functions/api/register.js:22 | no contract of its own; `FileStore.Register` states that it decides the 400 |
| FileIndex.IndexIds | functions/api/register.js:45-53 | an absent or unparseable index counts as empty |
| FileIndex.Registered | functions/api/register.js:56-61 | the new index has one more entry, capped at 1000 |
| FileIndex.RegisteredShape | functions/api/register.js:56-61 | the new id comes first, followed by the oldest part of the old list in order; nothing is dropped below 1000 entries |
| FileIndex.RegisteredKeepsDuplicates | functions/api/register.js:56 | re-registering an id already listed lists it twice: there is no de-duplication |
| FileIndex.Without | functions/api/delete.ts:75 | filtering removes `fileId` and never lengthens the list |
| FileIndex.WithoutAppend | functions/api/delete.ts:75 | filtering distributes over concatenation, so survivors keep their order |
| FileIndex.WithoutCounts | functions/api/delete.ts:75 | every occurrence of `fileId` goes and every other id keeps its count |
| FileIndex.WithoutAbsent | functions/api/delete.ts:75 | a list without `fileId` is unchanged |
| FileIndex.DeleteUndoesRegister | functions/api/register.js:56-61 | deleting right after registering a fresh id restores the old list when nothing was dropped |
| FileIndex.NewMeta | functions/api/register.js:30-37 | the record carries the given id and key, and `size` defaults to 0 |
| FileIndex.FileStore.constructor | functions/api/register.js:11 | a store holds the given records and index |
| FileIndex.FileStore.Register | functions/api/register.js:11-81 | 400 with nothing changed exactly when a required field is missing; otherwise the record is written, then the index becomes `[id] + old`, cut to 1000, with 200, or, exactly when the stored value is not an array, stays as it was with 500 |
| FileIndex.FileStore.Delete | functions/api/delete.ts:16-93 | 400 without an id and 404 for a missing or empty record, both changing nothing; for an unparseable record, 500 with nothing changed; otherwise the storage deletion is requested for the record's key whatever its outcome, the record is removed, and the index loses every occurrence of the id with 200 or, exactly when the stored value is not an array, stays as it was with 500 |
| FileIndex.FileStore.RemoveFromIndex | functions/api/delete.ts:63-76 | records untouched; an absent or unparseable index counts as empty; the index is filtered, or a non-array fails and is left as it was; the 1000 bound is preserved |

## Left out

- **Authentication:** every endpoint first calls `verifyAuth`; the model starts after it succeeds.
- **Cryptography:** SHA-256 and HMAC-SHA256 are given functions returning 32 bytes and are not implemented.
- **Clock and randomness:** the clock and `crypto.randomUUID` are inputs.
  - The signer's timestamp is any string, and its exact form is proved for the `toISOString` shape of years 0 to 9999.
  - The second clock reading of the proxy endpoint is its own input.
- **Network, database and key-value I/O:** these are inputs or fields.
  - `fetch` results, the D1 insert result and `deleteObject` as called from `delete.ts` are inputs.
  - The key-value namespace is a map plus the index value.
  - Concurrency between requests (lost index updates) is not modelled.
- **JSON:** bodies are typed records whose fields are present or missing.
  - A field holding a non-string value, a fractional or non-numeric `size`, and index arrays holding non-strings are not modelled.
  - A stored record that parses to something other than metadata is not modelled either.
  - An error response carries its status and message; the text of a caught exception appended to 500 messages is not modelled.
- **Response headers:** CORS and the `onRequestOptions` handlers are not modelled.
- **Integer rendering:** `expiresIn.toString()` is modelled for integers only. Fractional, exponent (at or beyond 1e21) and NaN renderings are not.
- **Sort order and case:** `sort()` compares UTF-16 code units. The model compares code points, which agree on the ASCII parameter names that are sorted. `toLowerCase` is modelled on ASCII, the only letters the suffix rule admits.
- **Prototype keys:** a `typeMap` lookup of an inherited property name such as `constructor` returns a function in JavaScript. The model returns no entry. No accepted content type is such a name.
- **Proxy edge case:** a `file` form entry that is text rather than a file is not modelled.
- **Logging:** all `console` output is left out.
- **Key round-trip:** the signer's path is `/bucket/key` unencoded, as the code writes it, so no round-trip through percent-decoding of the path is stated.
- **Known-answer signature:** a fixed reference signature for a known request is not stated, because the digest functions are inputs.
