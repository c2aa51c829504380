# R2ServiceClient content typing and encoding, in Dafny

This project models the one part of the R2 MCP server with real policy of its
own: how `R2ServiceClient` types and encodes objects on their way into and out of
an S3-compatible bucket (Cloudflare R2).

- **MIME inference** (`MimeTypes`). `inferContentTypeFromKey` looks up the
  lower-cased text after the last `.` in a fixed table of 71 extensions. It uses
  the dot only when it is not the name's first character. Every other name gets
  `application/octet-stream`.
- **Text classification** (`MimeTypes`). `isTextContentType` holds for a non-null
  type whose lower-case form meets one of three conditions:
  - it starts with `text/`;
  - it is one of six structured `application` types;
  - it contains `+json` or `+xml`.
- **Upload** (`Upload`). `uploadObject` runs its checks in a fixed order: bucket,
  key, content, then format. A null or blank format means `text`. The dispatch
  on the lower-cased format builds the payload: the text itself, the
  `java.util.Base64` decoding (`Base64`), or a local regular file. The content
  type is the declared one when it is not blank. Otherwise it is inferred from
  the local file's own name in `path` format and from the key in the other two.
- **Download** (`Download`). `downloadObject` checks bucket and key, then calls
  `headObject`. If that fails it stops there. A non-empty `responseType` then
  chooses text mode (only `text`, in any case) or file mode. Without one, text
  mode needs a text-like stored type and no destination. File mode asks the SDK
  to write to the destination. Without a destination it first asks
  `File.createTempFile` for a file named `r2download_…` with the key's suffix,
  and asks the SDK to write there. That suffix runs from the key's last `.` and
  can hold a `/` (see "## Left out").

Two modules support these four:
- `JavaText` models the `java.lang.String` operations the client uses:
  - ASCII `toLowerCase`;
  - `trim().isEmpty()`;
  - `equalsIgnoreCase`, `lastIndexOf`, `startsWith` and `contains`.
- `Storage` names the calls made to the store and the filesystem.

Java's `null` is `None`. A thrown exception is a `Failure` carrying an error
value, one per distinct `throw`.

Each operation has two forms:
- a pure specification: `PlanUpload`/`UploadOutcome` and `DownloadOutcome`;
- a method that follows the Java statement by statement. These methods are
  `UploadObject`, `SendObject`, `ReadLocalFile`, `DownloadObject` and
  `SaveObject`. They reassign locals as the Java does:
  - `format` in `UploadObject`;
  - `typeToSend` in `SendObject`, which stands for Java's reassigned `contentType`;
  - `finalContentType` in `ReadLocalFile`;
  - `finalPath` and `extension` in `SaveObject`, the file branch of
    `downloadObject`;
  - `textMode` in `DownloadObject`, which is set once.

Each method returns the result together with the ordered list of storage and
filesystem calls it made. It is proved equal to the specification, and the
lemmas state what the specification guarantees.

The store and the filesystem are inputs, not behaviour:
- a map from existing local paths to their kind;
- whether `putObject` is accepted;
- the `headObject` metadata, or its failure;
- the answer to `getObject`;
- the path `File.createTempFile` returns, or its failure;
- the platform charset's decoding of bytes.

Three behaviours of the code are easy to miss:
- The extension is used only when its `.` is at an index above 0, so `.txt`
  gets `application/octet-stream`.
- `downloadObject` never rejects a `responseType`: anything but `text`, in any
  case, and even `" "`, selects file mode.
- The tool description (R2ServiceClient.java:327) says a download without a
  destination is saved in the project root under the key's name. The code saves
  it to a temporary file (`File.createTempFile("r2download_", suffix)`).

## Model

| member | source | states |
|---|---|---|
| `JavaText.ToLower` | src/main/java/com/lskun/mcp/service/R2ServiceClient.java:520 | `toLowerCase` leaves no upper-case ASCII letter and keeps the string equal to its input ignoring case |
| `JavaText.ToLowerIdempotent` | src/main/java/com/lskun/mcp/service/R2ServiceClient.java:449 | lower-casing an already lower-cased string changes nothing |
| `JavaText.BlankIffAllSpace` | src/main/java/com/lskun/mcp/service/R2ServiceClient.java:223 | `s.trim().isEmpty()` holds exactly when every character is at most `' '` |
| `JavaText.EqualsIgnoreCaseIff` | src/main/java/com/lskun/mcp/service/R2ServiceClient.java:374 | `equalsIgnoreCase` holds exactly when both lower-case forms are equal |
| `JavaText.LastIndexOf` | src/main/java/com/lskun/mcp/service/R2ServiceClient.java:518 | `lastIndexOf` is -1 or an index holding the character, with no occurrence after it |
| `JavaText.LastIndexOfAt` | src/main/java/com/lskun/mcp/service/R2ServiceClient.java:401 | an occurrence with none after it is the one `lastIndexOf` returns |
| `JavaText.LastIndexOfIgnoresCase` | src/main/java/com/lskun/mcp/service/R2ServiceClient.java:518-520 | names equal up to case have their last `.` at the same index |
| `JavaText.ContainsIff` | src/main/java/com/lskun/mcp/service/R2ServiceClient.java:459-460 | `contains` holds exactly when the pattern occurs at some index |
| `JavaText.NotContainsWithout` | src/main/java/com/lskun/mcp/service/R2ServiceClient.java:459-460 | a string lacking the pattern's first character does not contain it |
| `MimeTypes.TableValuesVisible` | src/main/java/com/lskun/mcp/service/R2ServiceClient.java:524-613 | no table key is empty, and every table value is a non-blank MIME type |
| `MimeTypes.InferContentTypeFromKey` | src/main/java/com/lskun/mcp/service/R2ServiceClient.java:516-621 | the inferred type is never blank |
| `MimeTypes.InferContentTypeCases` | src/main/java/com/lskun/mcp/service/R2ServiceClient.java:516-621 | no `.` past the first character, or an extension missing from the table, gives `application/octet-stream`; otherwise the result is the table entry of the lower-cased extension |
| `MimeTypes.ExtensionIgnoresCase` | src/main/java/com/lskun/mcp/service/R2ServiceClient.java:517-521 | names equal up to case have the same extension |
| `MimeTypes.InferContentTypeIgnoresCase` | src/main/java/com/lskun/mcp/service/R2ServiceClient.java:516-521 | names equal up to case get the same type |
| `MimeTypes.IsTextContentType` | src/main/java/com/lskun/mcp/service/R2ServiceClient.java:444-461 | a type classified as text is neither null nor blank |
| `MimeTypes.PdfEntry` | src/main/java/com/lskun/mcp/service/R2ServiceClient.java:543 | the table maps `pdf` to `application/pdf` |
| `MimeTypes.ReportPdfExample` | src/main/java/com/lskun/mcp/service/R2ServiceClient.java:517-521 | `report.PDF` is `application/pdf` |
| `MimeTypes.NoExtensionExamples` | src/main/java/com/lskun/mcp/service/R2ServiceClient.java:518-519 | `README` and `.txt` are `application/octet-stream` |
| `MimeTypes.LastDotExample` | src/main/java/com/lskun/mcp/service/R2ServiceClient.java:518-520 | only the text after the last `.` is looked up: `archive.tar.gz` has extension `gz` |
| `MimeTypes.IsTextContentTypeIgnoresCase` | src/main/java/com/lskun/mcp/service/R2ServiceClient.java:449 | types equal up to case are classified alike |
| `MimeTypes.NotTextLike` | src/main/java/com/lskun/mcp/service/R2ServiceClient.java:444-461 | a type that is not `text/…`, not structured and has no `+` is binary |
| `MimeTypes.TextPlainIsText` | src/main/java/com/lskun/mcp/service/R2ServiceClient.java:452 | `text/plain` is text |
| `MimeTypes.JsonIsText` | src/main/java/com/lskun/mcp/service/R2ServiceClient.java:453 | `application/json` is text |
| `MimeTypes.XmlIsText` | src/main/java/com/lskun/mcp/service/R2ServiceClient.java:454 | `application/xml` is text |
| `MimeTypes.PlusJsonIsText` | src/main/java/com/lskun/mcp/service/R2ServiceClient.java:459 | `application/ld+json` is text through `+json` |
| `MimeTypes.PngIsBinary` | src/main/java/com/lskun/mcp/service/R2ServiceClient.java:444-461 | `image/png` is binary |
| `MimeTypes.OctetStreamIsBinary` | src/main/java/com/lskun/mcp/service/R2ServiceClient.java:444-461 | `application/octet-stream` is binary |
| `Base64.GroupRoundTrip` | src/main/java/com/lskun/mcp/service/R2ServiceClient.java:253 | splitting three bytes into four sextets and joining them gives the bytes back |
| `Base64.Encode` | src/test/java/com/lskun/mcp/service/R2ServiceClientTest.java:124 | the encoding holds only alphabet characters and `=` padding |
| `Base64.Decode` | src/main/java/com/lskun/mcp/service/R2ServiceClient.java:253 | accepted input yields three bytes per four characters, less at most two for a short or padded final unit |
| `Base64.GroupDecodes` | src/main/java/com/lskun/mcp/service/R2ServiceClient.java:253 | an encoded group in front of any input decodes to its three bytes in front of that input's decoding |
| `Base64.LastOneDecodes` | src/main/java/com/lskun/mcp/service/R2ServiceClient.java:253 | a final single byte, padded with `==` or not, decodes back |
| `Base64.LastTwoDecodes` | src/main/java/com/lskun/mcp/service/R2ServiceClient.java:253 | a final pair of bytes, padded with `=` or not, decodes back |
| `Base64.GroupStep` | src/main/java/com/lskun/mcp/service/R2ServiceClient.java:253 | a leading three-byte group survives the round trip when the rest does |
| `Base64.DecodeEncodeWith` | src/main/java/com/lskun/mcp/service/R2ServiceClient.java:253 | decoding the padded or unpadded encoding of any bytes gives them back |
| `Base64.DecodeEncode` | src/test/java/com/lskun/mcp/service/R2ServiceClientTest.java:124-135 | `decode(encodeToString(b)) == b` for every byte sequence `b` |
| `Base64.EncodeLength` | src/test/java/com/lskun/mcp/service/R2ServiceClientTest.java:124 | the padded encoding has four characters per started group of three bytes |
| `Base64.DecodeRejectsForeignChar` | src/main/java/com/lskun/mcp/service/R2ServiceClient.java:253-258 | a character outside the alphabet and not `=` makes decoding fail |
| `Base64.PaddingOnlyAtEnd` | src/main/java/com/lskun/mcp/service/R2ServiceClient.java:253-258 | in accepted input every `=` is among the last two characters |
| `Base64.LenientFinalUnit` | src/main/java/com/lskun/mcp/service/R2ServiceClient.java:253 | the decoder ignores unused low bits: `QR==` decodes to `[65]`, which encodes as `QQ==` |
| `Upload.FormatName` | src/main/java/com/lskun/mcp/service/R2ServiceClient.java:236-239 | the format dispatched on is never blank; a null or blank one becomes a name the dispatch accepts as text; any other is kept as given |
| `Upload.StripTrailingSlashes` | src/main/java/com/lskun/mcp/service/R2ServiceClient.java:276 | the result is a prefix of the path, only `/` characters are dropped, a non-empty path stays non-empty, and it does not end in `/` unless it is `/` |
| `Upload.FileName` | src/main/java/com/lskun/mcp/service/R2ServiceClient.java:276 | `File.getName` is the text after the last `/` once trailing `/` are dropped: it holds no `/`, starts right after a `/` or at the start, and is the whole path when it has no `/` |
| `Upload.FileNameExample` | src/main/java/com/lskun/mcp/service/R2ServiceClient.java:276 | `/tmp/dir/report.pdf/` is named `report.pdf` |
| `Upload.PlanUpload` | src/main/java/com/lskun/mcp/service/R2ServiceClient.java:219-302 | a request is built only for arguments that pass every check and name a format, and every refusal is an illegal-argument error |
| `Upload.UploadOutcome` | src/main/java/com/lskun/mcp/service/R2ServiceClient.java:298-313 | the store is called at most once, only with `putObject`, and the only other failure is the store refusing that call |
| `Upload.ValidationOrder` | src/main/java/com/lskun/mcp/service/R2ServiceClient.java:223-288 | bucket, key, content and format are checked in that order, each failure thrown with no storage call |
| `Upload.StoreCalledOnlyWithPlan` | src/main/java/com/lskun/mcp/service/R2ServiceClient.java:241-313 | `putObject` is called exactly when the plan succeeds, once, with the planned request; exactly the failures without that call are illegal-argument errors; success needs the call and the store's acceptance |
| `Upload.FormatDefaultsToText` | src/main/java/com/lskun/mcp/service/R2ServiceClient.java:236-239 | a null or blank format behaves exactly like `"text"` |
| `Upload.ParseFormat` | src/main/java/com/lskun/mcp/service/R2ServiceClient.java:244-288 | each format is selected exactly when the string equals its name ignoring case, and none otherwise |
| `Upload.FormatIsNotTrimmed` | src/main/java/com/lskun/mcp/service/R2ServiceClient.java:244 | `BASE64` selects base64 but `" base64"` is rejected |
| `Upload.PathGuardIsLowerCase` | src/main/java/com/lskun/mcp/service/R2ServiceClient.java:292 | `"path".equalsIgnoreCase(format)` agrees with the switch's lower-cased `path` case |
| `Upload.TextPayloadUnchanged` | src/main/java/com/lskun/mcp/service/R2ServiceClient.java:245-249 | in text format the payload is the content string unchanged |
| `Upload.Base64PayloadIsDecoding` | src/main/java/com/lskun/mcp/service/R2ServiceClient.java:251-260 | in base64 format the upload proceeds exactly when the content decodes, with the decoded bytes, and otherwise fails as invalid Base64 |
| `Upload.Base64UploadRoundTrip` | src/test/java/com/lskun/mcp/service/R2ServiceClientTest.java:124-127 | content made by `encodeToString(bytes)` uploads exactly `bytes` |
| `Upload.PathPayloadChecksFile` | src/main/java/com/lskun/mcp/service/R2ServiceClient.java:262-285 | a missing path or a non-regular file fails with "Failed to read file"; a regular file is the payload |
| `Upload.ContentTypeSource` | src/main/java/com/lskun/mcp/service/R2ServiceClient.java:274-295 | a non-blank declared type is sent unchanged; otherwise path format infers from the file's name and the others from the key |
| `Upload.PathTypeIgnoresKey` | src/main/java/com/lskun/mcp/service/R2ServiceClient.java:274-277 | in path format the same file under any other key is sent with the same type |
| `Upload.SentContentTypeNotBlank` | src/main/java/com/lskun/mcp/service/R2ServiceClient.java:298-302 | the content type sent with `putObject` is never blank |
| `Upload.RequestTargetsArguments` | src/main/java/com/lskun/mcp/service/R2ServiceClient.java:298-309 | the request targets the given bucket and key, and the success message names both |
| `Upload.ReadLocalFile` | src/main/java/com/lskun/mcp/service/R2ServiceClient.java:262-285 | the `path` case fails exactly as the path-format payload does, and otherwise yields the file and its resolved type |
| `Upload.SendObject` | src/main/java/com/lskun/mcp/service/R2ServiceClient.java:241-313 | on validated arguments, the switch, the key fallback and `putObject` give exactly the specified outcome and calls |
| `Upload.UploadObject` | src/main/java/com/lskun/mcp/service/R2ServiceClient.java:219-314 | the method's result and storage calls are those of the upload specification |
| `Download.RejectedBeforeStorage` | src/main/java/com/lskun/mcp/service/R2ServiceClient.java:337-343 | a null or blank bucket or key is refused with no storage call |
| `Download.HeadFailureAborts` | src/main/java/com/lskun/mcp/service/R2ServiceClient.java:354-363 | `headObject` is the first call, and when it fails it is the only one and the object is reported unavailable |
| `Download.ResponseTypeOverrides` | src/main/java/com/lskun/mcp/service/R2ServiceClient.java:372-375 | a non-empty response type alone decides: text exactly when it lower-cases to `text`, whatever the type and destination |
| `Download.ResponseTypeExamples` | src/main/java/com/lskun/mcp/service/R2ServiceClient.java:372-375 | `TEXT` selects text; `FILE` and `" "` select a file even for plain text without a destination |
| `Download.TextMode` | src/main/java/com/lskun/mcp/service/R2ServiceClient.java:371-380 | a destination is passed over only when `text` was asked for, and text mode needs that request or a non-blank stored type |
| `Download.AutomaticMode` | src/main/java/com/lskun/mcp/service/R2ServiceClient.java:376-379 | without a response type, text mode holds exactly for a text-like stored type with no destination |
| `Download.TextModeReturnsContent` | src/main/java/com/lskun/mcp/service/R2ServiceClient.java:382-394 | text mode calls `headObject` then `getObject` only and returns the decoded bytes |
| `Download.GivenDestinationUsed` | src/main/java/com/lskun/mcp/service/R2ServiceClient.java:396-427 | file mode with a destination writes to it as given, with no temporary file |
| `Download.TemporaryFileUsed` | src/main/java/com/lskun/mcp/service/R2ServiceClient.java:399-414 | file mode without a destination asks for a temporary file with the key's suffix, stops if that fails, and otherwise downloads into it |
| `Download.TempSuffixMayHoldSlash` | src/main/java/com/lskun/mcp/service/R2ServiceClient.java:400-404 | the suffix of `docs/v1.2/readme` is `.2/readme`: it starts at the key's last `.`, even in an earlier path segment |
| `Download.TempSuffix` | src/main/java/com/lskun/mcp/service/R2ServiceClient.java:399-404 | the suffix is a proper end of the key that starts with its only `.`, or is empty |
| `Download.TempSuffixShape` | src/main/java/com/lskun/mcp/service/R2ServiceClient.java:400-404 | the suffix is empty exactly when the key has no `.` past its first character |
| `Download.TempFileKeepsType` | src/main/java/com/lskun/mcp/service/R2ServiceClient.java:400-408 | any non-empty stem followed by the key's suffix is inferred the same type as the key |
| `Download.SavedMessageNamesPath` | src/main/java/com/lskun/mcp/service/R2ServiceClient.java:430-431 | a successful file download's message contains the path written to |
| `Download.DownloadOutcome` | src/main/java/com/lskun/mcp/service/R2ServiceClient.java:332-439 | no call is made exactly when bucket or key is refused; at most three calls are made; success comes only after a `getObject` |
| `Download.SaveObject` | src/main/java/com/lskun/mcp/service/R2ServiceClient.java:395-431 | the file branch, step by step, gives exactly the specified file-mode outcome and calls |
| `Download.DownloadObject` | src/main/java/com/lskun/mcp/service/R2ServiceClient.java:332-439 | the method's result and storage calls are those of the download specification |

## Left out

- The S3 client's construction and HTTP settings (lines 37-63) are not modelled. Neither are the pass-through operations `listBuckets`, `createBucket`, `deleteBucket`, `listObjects`, `deleteObject` and `getObjectMetadata`. These wrap the SDK and have no policy of their own.
- `putObject`, `headObject`, `getObject`, `RequestBody.fromFile`, `File.createTempFile` and `ResponseTransformer.toFile` are not modelled as behaviour. Their answers are inputs of the operations, and each call is recorded in order. Temporary-file name uniqueness cannot be stated over such inputs.
- `Download.DownloadOutcome`: the temporary-file branch is expected to end in `FileWriteFailed`, not `Delivered`. `File.createTempFile` (line 408) creates the file, and the SDK documents that `ResponseTransformer.toFile` (line 427) refuses a file that already exists. The SDK is not part of this model, so the getObject answer stays an input and the model does not decide between the two.
- The `mkdirs` of the destination's parent directory (lines 418-424) is not modelled: its failure is only logged.
- Charsets are not modelled. `RequestBody.fromString` is kept as the text payload. `new String(bytes)` is an input function from bytes to text.
- `toLowerCase` and `equalsIgnoreCase` are modelled on ASCII only. Locale-dependent and non-ASCII case mappings are not captured.
- `java.io.File` is modelled by the last path segment only, after trailing `/` are dropped. Other normalisation and Windows separators are not modelled.
- Exception messages are represented by one error value per `throw`, not by their text. The message of the wrapped cause is dropped.
- Logging, Spring wiring and the tool-registration configuration are not modelled.
- `Upload.UploadOutcome`: only `S3Exception` from `putObject` is caught and wrapped (lines 310-313). Any other exception from the SDK, such as a client-side failure, escapes `uploadObject` unwrapped. The model's `putAccepted` answer has no such case, so every refused put is `UploadFailed`.
- `Download.DownloadOutcome`: only `S3Exception` is caught and wrapped (lines 359-363 and 433-438). Any other exception from `headObject` or `getObject` escapes `downloadObject` unwrapped. The model has no such case: every head failure is `ObjectUnavailable`, and a rejected get is `DownloadFailed`.
- `Download.TempSuffix`: the suffix is `key.substring(lastDot)`, which can hold a `/` when the last `.` is in an earlier path segment (`TempSuffixMayHoldSlash`). `File.createTempFile` is expected to throw `IOException` for such a suffix, which would make every such download end in `TempFileFailed`. That JDK behaviour is not part of this model, so the `tempFile` answer stays an input.
- `Download.DownloadError.FileWriteFailed` stands for any non-S3 failure while the SDK writes the file. That failure escapes `downloadObject` unwrapped, and its exact exception type belongs to the SDK.
