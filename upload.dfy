/** R2ServiceClient.uploadObject: argument validation, the content format, the
    payload and the content type sent with putObject. */
module Upload {
  import opened Wrappers
  import opened JavaText
  import opened MimeTypes
  import opened Base64
  import opened Storage

  /** The three values contentFormat selects. */
  datatype ContentFormat = TextFormat | Base64Format | PathFormat

  /** Why a local path cannot be uploaded. */
  datatype FileProblem = DoesNotExist | NotAFile

  /** The exceptions uploadObject throws. All but UploadFailed are
      IllegalArgumentException; UploadFailed wraps the store's S3Exception. */
  datatype UploadError =
    | BucketNameRequired
    | KeyRequired
    | ContentRequired
    | InvalidContentFormat(format: string)
    | InvalidBase64Content
    | FailedToReadFile(path: string, problem: FileProblem)
    | UploadFailed(bucket: string, key: string)

  predicate IsIllegalArgument(e: UploadError)
  {
    !e.UploadFailed?
  }

  /** The tool's arguments; Java's null is None. */
  datatype UploadArgs = UploadArgs(
    bucketName: Option<string>,
    key: Option<string>,
    content: Option<string>,
    contentType: Option<string>,
    contentFormat: Option<string>)

  /** The format string actually dispatched on: a null or blank one means "text",
      which the dispatch accepts; any other is kept as given, untrimmed. */
  function FormatName(contentFormat: Option<string>): (f: string)
    ensures !IsBlank(f)
    ensures NullOrBlank(contentFormat) ==> ParseFormat(f) == Some(TextFormat)
    ensures !NullOrBlank(contentFormat) ==> f == contentFormat.value
  {
    if NullOrBlank(contentFormat) then
      NotBlankWitness("text", 0);
      ToLowerOfLowerCase("text");
      "text"
    else
      contentFormat.value
  }

  /** The switch on format.toLowerCase(): each format is chosen exactly when the
      string equals its name ignoring case, so only the case is forgiven (there is
      no trimming), and a string matching no name is rejected. */
  function ParseFormat(format: string): (r: Option<ContentFormat>)
    ensures r == Some(TextFormat) <==> EqualsIgnoreCase(format, "text")
    ensures r == Some(Base64Format) <==> EqualsIgnoreCase(format, "base64")
    ensures r == Some(PathFormat) <==> EqualsIgnoreCase(format, "path")
    ensures r == None <==>
      !EqualsIgnoreCase(format, "text") && !EqualsIgnoreCase(format, "base64") && !EqualsIgnoreCase(format, "path")
  {
    EqualsIgnoreCaseIff(format, "text");
    EqualsIgnoreCaseIff(format, "base64");
    EqualsIgnoreCaseIff(format, "path");
    ToLowerOfLowerCase("text");
    ToLowerOfLowerCase("base64");
    ToLowerOfLowerCase("path");
    var lower := ToLower(format);
    if lower == "text" then Some(TextFormat)
    else if lower == "base64" then Some(Base64Format)
    else if lower == "path" then Some(PathFormat)
    else None
  }

  /** java.io.File.getName: what follows the last '/', once trailing '/' are dropped. */
  function StripTrailingSlashes(path: string): (r: string)
    ensures |r| <= |path| && r == path[..|r|]
    ensures forall i :: |r| <= i < |path| ==> path[i] == '/'
    ensures |r| <= 1 || r[|r| - 1] != '/'
    ensures |path| > 0 ==> |r| > 0
    decreases |path|
  {
    if |path| > 1 && path[|path| - 1] == '/' then StripTrailingSlashes(path[..|path| - 1]) else path
  }

  /** The name is the text after the last '/' once trailing '/' are dropped: it is
      the end of that path, holds no '/', starts right after a '/' or at the start,
      and is the whole path when the path has no '/'. */
  function FileName(path: string): (name: string)
    ensures '/' !in name
    ensures var p := StripTrailingSlashes(path); |name| <= |p| && p[|p| - |name|..] == name
    ensures var p := StripTrailingSlashes(path); |name| == |p| || p[|p| - |name| - 1] == '/'
    ensures '/' !in path ==> name == path
  {
    var p := StripTrailingSlashes(path);
    var slash := LastIndexOf(p, '/');
    var name := p[slash + 1..];
    assert |p| - |name| == slash + 1;
    assert '/' !in name by {
      forall i | 0 <= i < |name| ensures name[i] != '/' {
        assert name[i] == p[slash + 1 + i];
      }
    }
    NoSlashKept(path);
    name
  }

  /** A path without '/' loses nothing to StripTrailingSlashes. */
  lemma NoSlashKept(path: string)
    ensures '/' !in path ==> StripTrailingSlashes(path) == path
  {
    var p := StripTrailingSlashes(path);
    if |p| < |path| {
      assert path[|p|] == '/';
    }
  }

  /** A directory-style trailing '/' is ignored. */
  lemma FileNameExample()
    ensures FileName("/tmp/dir/report.pdf/") == "report.pdf"
  {
    var path := "/tmp/dir/report.pdf/";
    var p := StripTrailingSlashes(path);
    assert p == path[..|path| - 1];
    LastIndexOfAt(p, '/', 8);
  }

  /** The payload of each format: the text as it is, the decoded bytes, or the
      named local file, which must exist and be a regular file. */
  function Payload(format: ContentFormat, content: string, fs: FileSystem): Result<RequestBody, UploadError>
  {
    match format
    case TextFormat => Success(FromString(content))
    case Base64Format =>
      (match Decode(content)
       case None => Failure(InvalidBase64Content)
       case Some(bytes) => Success(FromBytes(bytes)))
    case PathFormat =>
      if content !in fs then Failure(FailedToReadFile(content, DoesNotExist))
      else if fs[content] != RegularFile then Failure(FailedToReadFile(content, NotAFile))
      else Success(FromFile(content))
  }

  /** The content type sent: a declared non-blank one as it is; otherwise the one
      inferred from the local file's name in path format and from the key in the
      other two. */
  function ResolveContentType(format: ContentFormat, declared: Option<string>, key: string, content: string): string
  {
    if format == PathFormat then FileContentType(declared, content)
    else if !NullOrBlank(declared) then declared.value
    else InferContentTypeFromKey(key)
  }

  /** The content type of a local file upload: the declared one unless it is blank,
      else the one inferred from the file's own name. */
  function FileContentType(declared: Option<string>, path: string): string
  {
    if !NullOrBlank(declared) then declared.value else InferContentTypeFromKey(FileName(path))
  }

  /** The putObject request uploadObject builds, or the exception it throws first:
      a request exists only for arguments that pass every check and name a format,
      and every refusal is an IllegalArgumentException. */
  function PlanUpload(args: UploadArgs, fs: FileSystem): (r: Result<PutObjectRequest, UploadError>)
    ensures r.Success? ==> Validated(args) && SelectedFormat(args).Some?
    ensures r.Failure? ==> IsIllegalArgument(r.error)
  {
    if NullOrBlank(args.bucketName) then Failure(BucketNameRequired)
    else if NullOrBlank(args.key) then Failure(KeyRequired)
    else if args.content.None? then Failure(ContentRequired)
    else
      var format := FormatName(args.contentFormat);
      match ParseFormat(format)
      case None => Failure(InvalidContentFormat(format))
      case Some(f) =>
        match Payload(f, args.content.value, fs)
        case Failure(e) => Failure(e)
        case Success(body) =>
          var contentType := ResolveContentType(f, args.contentType, args.key.value, args.content.value);
          Success(PutObjectRequest(args.bucketName.value, args.key.value, contentType, body))
  }

  function SuccessMessage(bucket: string, key: string): string
  {
    "Object uploaded successfully to bucket: '" + bucket + "' with key: '" + key + "'."
  }

  /** The returned message or thrown exception, with the calls made: putObject is
      called once the plan exists, and putAccepted is the store's answer. The store
      is called at most once, only with putObject, and a failure that is not an
      IllegalArgumentException is the store refusing that call. */
  function UploadOutcome(args: UploadArgs, fs: FileSystem, putAccepted: bool)
    : (r: (Result<string, UploadError>, seq<StorageCall>))
    ensures |r.1| <= 1 && forall c | c in r.1 :: c.PutObject?
    ensures r.0.Failure? && !IsIllegalArgument(r.0.error) ==> r.1 != [] && !putAccepted
  {
    match PlanUpload(args, fs)
    case Failure(e) => (Failure(e), [])
    case Success(request) =>
      if putAccepted then (Success(SuccessMessage(request.bucket, request.key)), [PutObject(request)])
      else (Failure(UploadFailed(request.bucket, request.key)), [PutObject(request)])
  }

  /** Once the arguments pass validation and the format is known, the plan is the
      payload's with the resolved content type. */
  lemma PlanOfFormat(args: UploadArgs, fs: FileSystem, f: ContentFormat)
    requires !NullOrBlank(args.bucketName) && !NullOrBlank(args.key) && args.content.Some?
    requires ParseFormat(FormatName(args.contentFormat)) == Some(f)
    ensures PlanUpload(args, fs) ==
      match Payload(f, args.content.value, fs)
      case Failure(e) => Failure(e)
      case Success(body) =>
        Success(PutObjectRequest(args.bucketName.value, args.key.value,
          ResolveContentType(f, args.contentType, args.key.value, args.content.value), body))
  {
  }

  /** The "path" case of uploadObject: the file must exist and be a regular file,
      and a blank declared content type is replaced by the file name's; every
      failure is reported as "Failed to read file". */
  method ReadLocalFile(path: string, contentType: Option<string>, fs: FileSystem)
    returns (read: Result<(RequestBody, string), UploadError>)
    ensures read.Failure? <==> Payload(PathFormat, path, fs).Failure?
    ensures read.Failure? ==> read.error == Payload(PathFormat, path, fs).error
    ensures read.Success? ==> read.value == (Payload(PathFormat, path, fs).value, FileContentType(contentType, path))
  {
    if path !in fs {
      return Failure(FailedToReadFile(path, DoesNotExist));
    }
    if fs[path] != RegularFile {
      return Failure(FailedToReadFile(path, NotAFile));
    }
    var finalContentType := contentType;
    if NullOrBlank(finalContentType) {
      finalContentType := Some(InferContentTypeFromKey(FileName(path)));
    }
    read := Success((FromFile(path), finalContentType.value));
  }

  /** "path".equalsIgnoreCase(format) agrees with the switch's format.toLowerCase(). */
  lemma PathGuardIsLowerCase(format: string)
    ensures EqualsIgnoreCase("path", format) <==> ToLower(format) == "path"
  {
    EqualsIgnoreCaseIff("path", format);
    ToLowerOfLowerCase("path");
  }

  /** uploadObject step by step: the three checks, then format defaults to "text". */
  method UploadObject(bucketName: Option<string>, key: Option<string>, content: Option<string>,
                      contentType: Option<string>, contentFormat: Option<string>,
                      fs: FileSystem, putAccepted: bool)
    returns (result: Result<string, UploadError>, calls: seq<StorageCall>)
    ensures (result, calls) == UploadOutcome(UploadArgs(bucketName, key, content, contentType, contentFormat), fs, putAccepted)
  {
    if NullOrBlank(bucketName) {
      return Failure(BucketNameRequired), [];
    }
    if NullOrBlank(key) {
      return Failure(KeyRequired), [];
    }
    if content.None? {
      return Failure(ContentRequired), [];
    }

    var format := contentFormat;
    if NullOrBlank(format) {
      format := Some("text");
      FormatDefaultsToText(UploadArgs(bucketName, key, content, contentType, contentFormat), fs);
      assert format.value == FormatName(contentFormat);
    }
    result, calls := SendObject(bucketName.value, key.value, content.value, contentType, format.value, fs, putAccepted);
  }

  /** The try block of uploadObject, on validated arguments: the switch on the
      lower-cased format builds the payload (the "path" case also settles the
      content type), then a still blank content type is inferred from the key
      unless the format is "path", and putObject is called. */
  method SendObject(bucketName: string, key: string, content: string, contentType: Option<string>,
                    format: string, fs: FileSystem, putAccepted: bool)
    returns (result: Result<string, UploadError>, calls: seq<StorageCall>)
    requires !IsBlank(bucketName) && !IsBlank(key) && !IsBlank(format)
    ensures (result, calls) == UploadOutcome(UploadArgs(Some(bucketName), Some(key), Some(content), contentType, Some(format)), fs, putAccepted)
  {
    ghost var args := UploadArgs(Some(bucketName), Some(key), Some(content), contentType, Some(format));
    var typeToSend := contentType;
    var body: RequestBody;
    ghost var f: ContentFormat;
    var lower := ToLower(format);
    if lower == "text" {
      body := FromString(content);
      f := TextFormat;
    } else if lower == "base64" {
      var decoded := Decode(content);
      PlanOfFormat(args, fs, Base64Format);
      if decoded.None? {
        return Failure(InvalidBase64Content), [];
      }
      body := FromBytes(decoded.value);
      f := Base64Format;
    } else if lower == "path" {
      var read := ReadLocalFile(content, contentType, fs);
      PlanOfFormat(args, fs, PathFormat);
      if read.Failure? {
        return Failure(read.error), [];
      }
      body := read.value.0;
      typeToSend := Some(read.value.1);
      f := PathFormat;
    } else {
      return Failure(InvalidContentFormat(format)), [];
    }

    PlanOfFormat(args, fs, f);
    PathGuardIsLowerCase(format);
    if NullOrBlank(typeToSend) && !EqualsIgnoreCase("path", format) {
      typeToSend := Some(InferContentTypeFromKey(key));
    }

    var request := PutObjectRequest(bucketName, key, typeToSend.value, body);
    assert PlanUpload(args, fs) == Success(request);
    calls := [PutObject(request)];
    if !putAccepted {
      return Failure(UploadFailed(bucketName, key)), calls;
    }
    result := Success(SuccessMessage(bucketName, key));
  }

  /** The arguments pass the three null and blank checks. */
  predicate Validated(args: UploadArgs)
  {
    !NullOrBlank(args.bucketName) && !NullOrBlank(args.key) && args.content.Some?
  }

  /** The format the arguments select, if any. */
  function SelectedFormat(args: UploadArgs): Option<ContentFormat>
  {
    ParseFormat(FormatName(args.contentFormat))
  }

  /** The checks run in a fixed order, each throwing before the store is called. */
  lemma ValidationOrder(args: UploadArgs, fs: FileSystem, putAccepted: bool)
    ensures NullOrBlank(args.bucketName) ==>
      UploadOutcome(args, fs, putAccepted) == (Failure(BucketNameRequired), [])
    ensures !NullOrBlank(args.bucketName) && NullOrBlank(args.key) ==>
      UploadOutcome(args, fs, putAccepted) == (Failure(KeyRequired), [])
    ensures !NullOrBlank(args.bucketName) && !NullOrBlank(args.key) && args.content.None? ==>
      UploadOutcome(args, fs, putAccepted) == (Failure(ContentRequired), [])
    ensures Validated(args) && SelectedFormat(args).None? ==>
      UploadOutcome(args, fs, putAccepted) == (Failure(InvalidContentFormat(FormatName(args.contentFormat))), [])
  {
  }

  /** putObject is called exactly when the plan succeeds, with the planned request,
      and every exception thrown without calling it is an IllegalArgumentException. */
  lemma StoreCalledOnlyWithPlan(args: UploadArgs, fs: FileSystem, putAccepted: bool)
    ensures var (result, calls) := UploadOutcome(args, fs, putAccepted);
      && (calls == [] <==> PlanUpload(args, fs).Failure?)
      && (calls != [] ==> calls == [PutObject(PlanUpload(args, fs).value)])
      && (result.Failure? ==> (IsIllegalArgument(result.error) <==> calls == []))
      && (result.Success? <==> calls != [] && putAccepted)
  {
  }

  /** A null or blank format behaves exactly like "text". */
  lemma FormatDefaultsToText(args: UploadArgs, fs: FileSystem)
    requires NullOrBlank(args.contentFormat)
    ensures PlanUpload(args, fs) == PlanUpload(args.(contentFormat := Some("text")), fs)
    ensures SelectedFormat(args) == Some(TextFormat)
  {
  }

  /** Upper case is forgiven, surrounding blanks are not. */
  lemma FormatIsNotTrimmed()
    ensures ParseFormat("BASE64") == Some(Base64Format)
    ensures ParseFormat(" base64") == None
  {
    assert ToLower("BASE64") == "base64";
    assert |ToLower(" base64")| == 7;
  }

  /** In text format the payload is the content string unchanged. */
  lemma TextPayloadUnchanged(args: UploadArgs, fs: FileSystem)
    requires Validated(args) && SelectedFormat(args) == Some(TextFormat)
    ensures PlanUpload(args, fs).Success?
    ensures PlanUpload(args, fs).value.body == FromString(args.content.value)
  {
  }

  /** In base64 format the upload goes ahead exactly when the content decodes, with
      the decoded bytes as payload, and is otherwise refused as invalid Base64. */
  lemma Base64PayloadIsDecoding(args: UploadArgs, fs: FileSystem)
    requires Validated(args) && SelectedFormat(args) == Some(Base64Format)
    ensures PlanUpload(args, fs).Success? <==> Decode(args.content.value).Some?
    ensures PlanUpload(args, fs).Failure? ==> PlanUpload(args, fs).error == InvalidBase64Content
    ensures PlanUpload(args, fs).Success? ==>
      PlanUpload(args, fs).value.body == FromBytes(Decode(args.content.value).value)
  {
  }

  /** Content produced by Base64.getEncoder().encodeToString(bytes) uploads exactly
      those bytes. */
  lemma Base64UploadRoundTrip(args: UploadArgs, fs: FileSystem, data: seq<byte>)
    requires Validated(args) && SelectedFormat(args) == Some(Base64Format)
    requires args.content == Some(Encode(data))
    ensures PlanUpload(args, fs).Success?
    ensures PlanUpload(args, fs).value.body == FromBytes(data)
  {
    DecodeEncode(data);
  }

  /** In path format the content names a local file that must exist and be a
      regular file; the payload is that file. */
  lemma PathPayloadChecksFile(args: UploadArgs, fs: FileSystem)
    requires Validated(args) && SelectedFormat(args) == Some(PathFormat)
    ensures var path := args.content.value;
      && (path !in fs ==> PlanUpload(args, fs) == Failure(FailedToReadFile(path, DoesNotExist)))
      && (path in fs && fs[path] != RegularFile ==>
            PlanUpload(args, fs) == Failure(FailedToReadFile(path, NotAFile)))
      && (path in fs && fs[path] == RegularFile ==>
            PlanUpload(args, fs).Success? && PlanUpload(args, fs).value.body == FromFile(path))
  {
  }

  /** Where the sent content type comes from: the declared one when it is not blank,
      else the local file's name in path format, else the key. */
  lemma ContentTypeSource(args: UploadArgs, fs: FileSystem)
    requires PlanUpload(args, fs).Success?
    ensures var sent := PlanUpload(args, fs).value.contentType;
      && (!NullOrBlank(args.contentType) ==> sent == args.contentType.value)
      && (NullOrBlank(args.contentType) && SelectedFormat(args) == Some(PathFormat) ==>
            sent == InferContentTypeFromKey(FileName(args.content.value)))
      && (NullOrBlank(args.contentType) && SelectedFormat(args) != Some(PathFormat) ==>
            sent == InferContentTypeFromKey(args.key.value))
  {
  }

  /** In path format the key never influences the content type: uploading the same
      file under any other key sends the same type. */
  lemma PathTypeIgnoresKey(args: UploadArgs, fs: FileSystem, otherKey: string)
    requires PlanUpload(args, fs).Success? && SelectedFormat(args) == Some(PathFormat)
    requires !IsBlank(otherKey)
    ensures PlanUpload(args.(key := Some(otherKey)), fs).Success?
    ensures PlanUpload(args.(key := Some(otherKey)), fs).value.contentType == PlanUpload(args, fs).value.contentType
  {
    var other := args.(key := Some(otherKey));
    assert Validated(other) && SelectedFormat(other) == Some(PathFormat);
  }

  /** The content type sent with putObject is never null or blank. */
  lemma SentContentTypeNotBlank(args: UploadArgs, fs: FileSystem)
    requires PlanUpload(args, fs).Success?
    ensures !IsBlank(PlanUpload(args, fs).value.contentType)
  {
  }

  /** The request goes to the given bucket and key, and the success message names both. */
  lemma RequestTargetsArguments(args: UploadArgs, fs: FileSystem)
    requires PlanUpload(args, fs).Success?
    ensures PlanUpload(args, fs).value.bucket == args.bucketName.value
    ensures PlanUpload(args, fs).value.key == args.key.value
    ensures UploadOutcome(args, fs, true).0 == Success(SuccessMessage(args.bucketName.value, args.key.value))
  {
  }
}
