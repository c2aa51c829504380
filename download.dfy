/** R2ServiceClient.downloadObject: argument validation, the head call that must
    succeed first, the choice between returning the object as text and saving it
    to a file, and the temporary file used when no destination is given. */
module Download {
  import opened Wrappers
  import opened JavaText
  import opened MimeTypes
  import opened Base64
  import opened Storage

  /** The exceptions downloadObject throws. The first two are
      IllegalArgumentException; FileWriteFailed is the SDK's own exception from
      writing the file, which downloadObject does not catch; the rest are the
      RuntimeException it wraps around the store's or the JDK's. */
  datatype DownloadError =
    | BucketNameRequired
    | KeyRequired
    | ObjectUnavailable(bucket: string, key: string)
    | ReadFailed(bucket: string, key: string)
    | TempFileFailed
    | DownloadFailed(bucket: string, key: string)
    | FileWriteFailed(path: string)

  /** The store's answer to getObject: the object's bytes, an S3Exception, or a
      failure while the bytes are read or written. */
  datatype GetAnswer = Delivered(bytes: seq<byte>) | Rejected | Interrupted

  /** The tool's arguments; Java's null is None. */
  datatype DownloadArgs = DownloadArgs(
    bucketName: Option<string>,
    key: Option<string>,
    destinationPath: Option<string>,
    responseType: Option<string>)

  /** The prefix File.createTempFile is given. */
  const TempPrefix := "r2download_"

  /** Whether the object is returned as text: a non-empty responseType decides on
      its own (only "text", in any case, means text; it is not trimmed); otherwise
      the stored content type must be text-like and no destination given. So a
      destination is passed over only when text was asked for, and text mode needs
      either such a request or a known stored type. */
  predicate TextMode(responseType: Option<string>, destinationPath: Option<string>, contentType: Option<string>)
    ensures TextMode(responseType, destinationPath, contentType) && !NullOrBlank(destinationPath) ==>
      responseType.Some? && ToLower(responseType.value) == "text"
    ensures TextMode(responseType, destinationPath, contentType) ==>
      (responseType.Some? && responseType.value != "") || (contentType.Some? && !IsBlank(contentType.value))
  {
    if responseType.Some? && responseType.value != "" then
      EqualsIgnoreCaseIff(responseType.value, "text");
      ToLowerOfLowerCase("text");
      EqualsIgnoreCase(responseType.value, "text")
    else IsTextContentType(contentType) && NullOrBlank(destinationPath)
  }

  /** The temporary file's suffix: the key from its last '.' on, dot included, when
      that dot is not the first character; otherwise empty. */
  function TempSuffix(key: string): (suffix: string)
    ensures |suffix| <= |key| && suffix == key[|key| - |suffix|..]
    ensures suffix != "" ==> |suffix| < |key| && suffix[0] == '.' && '.' !in suffix[1..]
  {
    var lastDot := LastIndexOf(key, '.');
    if lastDot > 0 then key[lastDot..] else ""
  }

  function SavedMessage(bucket: string, key: string, path: string): string
  {
    "Object from bucket '" + bucket + "' with key '" + key + "' downloaded to file: '" + path + "'"
  }

  /** Saving to a file that exists: the calls so far, then getObject into the file. */
  function SaveToFile(bucket: string, key: string, path: string, before: seq<StorageCall>, get: GetAnswer)
    : (Result<string, DownloadError>, seq<StorageCall>)
  {
    var calls := before + [GetObjectToFile(bucket, key, path)];
    match get
    case Delivered(_) => (Success(SavedMessage(bucket, key, path)), calls)
    case Rejected => (Failure(DownloadFailed(bucket, key)), calls)
    case Interrupted => (Failure(FileWriteFailed(path)), calls)
  }

  /** File mode once the head call has answered: the destination as given, or else
      a temporary file with the key's suffix, which may fail to be created. */
  function SaveOutcome(bucket: string, key: string, destinationPath: Option<string>,
                       before: seq<StorageCall>, get: GetAnswer, tempFile: Option<string>)
    : (Result<string, DownloadError>, seq<StorageCall>)
  {
    if NullOrBlank(destinationPath) then
      var calls := before + [CreateTempFile(TempPrefix, TempSuffix(key))];
      match tempFile
      case None => (Failure(TempFileFailed), calls)
      case Some(path) => SaveToFile(bucket, key, path, calls, get)
    else
      SaveToFile(bucket, key, destinationPath.value, before, get)
  }

  /** The returned string or thrown exception, with the calls made. head is the
      store's answer to headObject (None for an S3Exception), get its answer to
      getObject, tempFile the absolute path File.createTempFile returns (None for an
      IOException), and decodeText the platform charset's decoding of bytes. */
  function DownloadOutcome(args: DownloadArgs, head: Option<ObjectMetadata>, get: GetAnswer,
                           tempFile: Option<string>, decodeText: seq<byte> -> string)
    : (r: (Result<string, DownloadError>, seq<StorageCall>))
    ensures r.1 == [] <==> !Validated(args)
    ensures |r.1| <= 3
    ensures r.0.Success? ==> |r.1| >= 2 && (r.1[|r.1| - 1].GetObject? || r.1[|r.1| - 1].GetObjectToFile?)
  {
    if NullOrBlank(args.bucketName) then (Failure(BucketNameRequired), [])
    else if NullOrBlank(args.key) then (Failure(KeyRequired), [])
    else
      var bucket, key := args.bucketName.value, args.key.value;
      var probe := [HeadObject(bucket, key)];
      match head
      case None => (Failure(ObjectUnavailable(bucket, key)), probe)
      case Some(metadata) =>
        if TextMode(args.responseType, args.destinationPath, metadata.contentType) then
          var calls := probe + [GetObject(bucket, key)];
          match get
          case Delivered(bytes) => (Success(decodeText(bytes)), calls)
          case Rejected => (Failure(DownloadFailed(bucket, key)), calls)
          case Interrupted => (Failure(ReadFailed(bucket, key)), calls)
        else
          SaveOutcome(bucket, key, args.destinationPath, probe, get, tempFile)
  }

  /** downloadObject step by step: the checks, headObject, textMode, then either the
      text read or the file branch. */
  method DownloadObject(bucketName: Option<string>, key: Option<string>, destinationPath: Option<string>,
                        responseType: Option<string>, head: Option<ObjectMetadata>, get: GetAnswer,
                        tempFile: Option<string>, decodeText: seq<byte> -> string)
    returns (result: Result<string, DownloadError>, calls: seq<StorageCall>)
    ensures (result, calls) == DownloadOutcome(DownloadArgs(bucketName, key, destinationPath, responseType), head, get, tempFile, decodeText)
  {
    if NullOrBlank(bucketName) {
      return Failure(BucketNameRequired), [];
    }
    if NullOrBlank(key) {
      return Failure(KeyRequired), [];
    }

    calls := [HeadObject(bucketName.value, key.value)];
    if head.None? {
      return Failure(ObjectUnavailable(bucketName.value, key.value)), calls;
    }
    var contentType := head.value.contentType;

    var textMode: bool;
    if responseType.Some? && |responseType.value| != 0 {
      textMode := EqualsIgnoreCase("text", responseType.value);
      assert textMode == EqualsIgnoreCase(responseType.value, "text");
    } else {
      textMode := IsTextContentType(contentType) && NullOrBlank(destinationPath);
    }
    assert textMode == TextMode(responseType, destinationPath, contentType);

    if textMode {
      calls := calls + [GetObject(bucketName.value, key.value)];
      match get
      case Delivered(bytes) =>
        result := Success(decodeText(bytes));
      case Rejected =>
        result := Failure(DownloadFailed(bucketName.value, key.value));
      case Interrupted =>
        result := Failure(ReadFailed(bucketName.value, key.value));
    } else {
      result, calls := SaveObject(bucketName.value, key.value, destinationPath, calls, get, tempFile);
    }
  }

  /** The file branch of downloadObject: finalPath is the destination, or else a
      temporary file named after the key's suffix, and the object is fetched into it. */
  method SaveObject(bucket: string, key: string, destinationPath: Option<string>,
                    before: seq<StorageCall>, get: GetAnswer, tempFile: Option<string>)
    returns (result: Result<string, DownloadError>, calls: seq<StorageCall>)
    ensures (result, calls) == SaveOutcome(bucket, key, destinationPath, before, get, tempFile)
  {
    calls := before;
    var finalPath := destinationPath;
    if NullOrBlank(finalPath) {
      var extension := "";
      var lastDot := LastIndexOf(key, '.');
      if lastDot > 0 {
        extension := key[lastDot..];
      }
      calls := calls + [CreateTempFile(TempPrefix, extension)];
      if tempFile.None? {
        return Failure(TempFileFailed), calls;
      }
      finalPath := tempFile;
    }
    calls := calls + [GetObjectToFile(bucket, key, finalPath.value)];
    match get
    case Delivered(_) =>
      result := Success(SavedMessage(bucket, key, finalPath.value));
    case Rejected =>
      result := Failure(DownloadFailed(bucket, key));
    case Interrupted =>
      result := Failure(FileWriteFailed(finalPath.value));
  }

  /** bucketName and key pass the null and blank checks. */
  predicate Validated(args: DownloadArgs)
  {
    !NullOrBlank(args.bucketName) && !NullOrBlank(args.key)
  }

  /** A null or blank bucket or key is refused before the store is called at all. */
  lemma RejectedBeforeStorage(args: DownloadArgs, head: Option<ObjectMetadata>, get: GetAnswer,
                              tempFile: Option<string>, decodeText: seq<byte> -> string)
    ensures NullOrBlank(args.bucketName) ==>
      DownloadOutcome(args, head, get, tempFile, decodeText) == (Failure(BucketNameRequired), [])
    ensures !NullOrBlank(args.bucketName) && NullOrBlank(args.key) ==>
      DownloadOutcome(args, head, get, tempFile, decodeText) == (Failure(KeyRequired), [])
  {
  }

  /** headObject comes first, and when it fails nothing else is called: no get and
      no temporary file. */
  lemma HeadFailureAborts(args: DownloadArgs, head: Option<ObjectMetadata>, get: GetAnswer,
                          tempFile: Option<string>, decodeText: seq<byte> -> string)
    requires Validated(args)
    ensures var (result, calls) := DownloadOutcome(args, head, get, tempFile, decodeText);
      && |calls| >= 1 && calls[0] == HeadObject(args.bucketName.value, args.key.value)
      && (head.None? <==> |calls| == 1)
      && (head.None? ==> result == Failure(ObjectUnavailable(args.bucketName.value, args.key.value)))
  {
  }

  /** A non-empty responseType alone decides: text exactly when it equals "text"
      ignoring case, whatever the stored type and the destination. */
  lemma ResponseTypeOverrides(responseType: string, destinationPath: Option<string>, contentType: Option<string>,
                              otherDestination: Option<string>, otherType: Option<string>)
    requires responseType != ""
    ensures TextMode(Some(responseType), destinationPath, contentType) <==> ToLower(responseType) == "text"
    ensures TextMode(Some(responseType), destinationPath, contentType) ==
            TextMode(Some(responseType), otherDestination, otherType)
  {
    EqualsIgnoreCaseIff(responseType, "text");
    ToLowerOfLowerCase("text");
  }

  /** "FILE" and even a single space force file mode, "TEXT" forces text mode, for a
      plain-text object with no destination. */
  lemma ResponseTypeExamples()
    ensures TextMode(Some("TEXT"), None, None)
    ensures !TextMode(Some("FILE"), None, Some("text/plain"))
    ensures !TextMode(Some(" "), None, Some("text/plain"))
  {
    assert ToLower("TEXT") == "text";
    assert ToLower("FILE")[0] == 'f';
  }

  /** With no responseType: text exactly for a text-like stored type and no
      destination, so a destination, an unknown type or a binary type means a file. */
  lemma AutomaticMode(responseType: Option<string>, destinationPath: Option<string>, contentType: Option<string>)
    requires responseType.None? || responseType.value == ""
    ensures !NullOrBlank(destinationPath) ==> !TextMode(responseType, destinationPath, contentType)
    ensures contentType.None? ==> !TextMode(responseType, destinationPath, contentType)
    ensures IsTextContentType(contentType) && NullOrBlank(destinationPath) ==> TextMode(responseType, destinationPath, contentType)
    ensures TextMode(responseType, destinationPath, contentType) <==> IsTextContentType(contentType) && NullOrBlank(destinationPath)
  {
  }

  /** In text mode the object is read and returned; nothing is written. */
  lemma TextModeReturnsContent(args: DownloadArgs, metadata: ObjectMetadata, get: GetAnswer,
                               tempFile: Option<string>, decodeText: seq<byte> -> string)
    requires Validated(args) && TextMode(args.responseType, args.destinationPath, metadata.contentType)
    ensures var (result, calls) := DownloadOutcome(args, Some(metadata), get, tempFile, decodeText);
      && calls == [HeadObject(args.bucketName.value, args.key.value), GetObject(args.bucketName.value, args.key.value)]
      && (get.Delivered? ==> result == Success(decodeText(get.bytes)))
      && (get.Interrupted? ==> result == Failure(ReadFailed(args.bucketName.value, args.key.value)))
  {
  }

  /** In file mode with a destination, the object is written to that path as given
      and no temporary file is created. */
  lemma GivenDestinationUsed(args: DownloadArgs, metadata: ObjectMetadata, get: GetAnswer,
                             tempFile: Option<string>, decodeText: seq<byte> -> string)
    requires Validated(args) && !TextMode(args.responseType, args.destinationPath, metadata.contentType)
    requires !NullOrBlank(args.destinationPath)
    ensures DownloadOutcome(args, Some(metadata), get, tempFile, decodeText).1 ==
      [HeadObject(args.bucketName.value, args.key.value),
       GetObjectToFile(args.bucketName.value, args.key.value, args.destinationPath.value)]
  {
  }

  /** In file mode without a destination, a temporary file is asked for with the key's
      suffix; if that fails nothing is downloaded, otherwise the object goes to it. */
  lemma TemporaryFileUsed(args: DownloadArgs, metadata: ObjectMetadata, get: GetAnswer,
                          tempFile: Option<string>, decodeText: seq<byte> -> string)
    requires Validated(args) && !TextMode(args.responseType, args.destinationPath, metadata.contentType)
    requires NullOrBlank(args.destinationPath)
    ensures var (result, calls) := DownloadOutcome(args, Some(metadata), get, tempFile, decodeText);
      var create := CreateTempFile(TempPrefix, TempSuffix(args.key.value));
      && (tempFile.None? ==> result == Failure(TempFileFailed) && calls[1..] == [create])
      && (tempFile.Some? ==> calls[1..] == [create, GetObjectToFile(args.bucketName.value, args.key.value, tempFile.value)])
  {
  }

  /** The suffix is empty exactly when the key has no '.' past its first character. */
  lemma TempSuffixShape(key: string)
    ensures TempSuffix(key) == "" <==> forall i :: 0 < i < |key| ==> key[i] != '.'
  {
    var d := LastIndexOf(key, '.');
    if d > 0 {
      assert key[d] == '.';
    }
  }

  /** The suffix starts at the last '.' of the whole key, which may sit in an
      earlier path segment, so it can hold a '/'. */
  lemma TempSuffixMayHoldSlash()
    ensures TempSuffix("docs/v1.2/readme") == ".2/readme"
  {
    LastIndexOfAt("docs/v1.2/readme", '.', 7);
  }

  /** A file named by any non-empty stem followed by the key's suffix is given the
      type the key itself is given, so the temporary copy keeps the object's type. */
  lemma TempFileKeepsType(stem: string, key: string)
    requires |stem| > 0 && TempSuffix(key) != ""
    ensures InferContentTypeFromKey(stem + TempSuffix(key)) == InferContentTypeFromKey(key)
  {
    TempFileKeepsExtension(stem, key);
  }

  /** The stem followed by the key's suffix has the key's extension. */
  lemma TempFileKeepsExtension(stem: string, key: string)
    requires |stem| > 0 && TempSuffix(key) != ""
    ensures Extension(stem + TempSuffix(key)) == Extension(key)
  {
    var d := LastIndexOf(key, '.');
    var sfx := key[d..];
    LastDotAfterStem(stem, sfx);
    assert sfx[1..] == key[d + 1..];
  }

  /** Behind any stem, a suffix that starts with its only '.' holds the last '.'. */
  lemma LastDotAfterStem(stem: string, sfx: string)
    requires |sfx| > 0 && sfx[0] == '.' && '.' !in sfx[1..]
    ensures LastIndexOf(stem + sfx, '.') == |stem|
    ensures (stem + sfx)[|stem| + 1..] == sfx[1..]
  {
    var name := stem + sfx;
    forall j | |stem| < j < |name| ensures name[j] != '.' {
      assert name[j] == sfx[1..][j - |stem| - 1];
    }
    LastIndexOfAt(name, '.', |stem|);
  }

  /** A successful file download reports the path written to. */
  lemma SavedMessageNamesPath(args: DownloadArgs, metadata: ObjectMetadata, get: GetAnswer,
                              tempFile: Option<string>, decodeText: seq<byte> -> string)
    requires Validated(args) && !TextMode(args.responseType, args.destinationPath, metadata.contentType)
    requires DownloadOutcome(args, Some(metadata), get, tempFile, decodeText).0.Success?
    ensures var path := if NullOrBlank(args.destinationPath) then tempFile.value else args.destinationPath.value;
      Contains(DownloadOutcome(args, Some(metadata), get, tempFile, decodeText).0.value, path)
  {
    var bucket, key := args.bucketName.value, args.key.value;
    var path := if NullOrBlank(args.destinationPath) then tempFile.value else args.destinationPath.value;
    var prefix := "Object from bucket '" + bucket + "' with key '" + key + "' downloaded to file: '";
    var message := SavedMessage(bucket, key, path);
    assert message == prefix + path + "'";
    assert OccursAt(message, path, |prefix|) by {
      assert message[|prefix|..|prefix| + |path|] == path;
    }
    ContainsAt(message, path, |prefix|);
  }
}
