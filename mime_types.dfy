/**
 * MIME inference for R2ServiceClient: the extension table consulted by
 * inferContentTypeFromKey and the text/binary classification isTextContentType.
 */
module MimeTypes {
  import opened Wrappers
  import opened JavaText

  /** The generic binary type, returned for every name the table does not know. */
  const OctetStream := "application/octet-stream"

  /** Lower-case extension (no leading dot) to MIME type, as the client fills its map,
      one constant per group of the source; later groups would win on a shared key,
      as later puts do, but no key is shared. */
  const ExtensionTable: map<string, string> :=
    TextTypes + DocumentTypes + ImageTypes + AudioTypes + VideoTypes
    + ArchiveTypes + FontTypes + SourceCodeTypes + OtherBinaryTypes

  const TextTypes: map<string, string> := map[
    "txt" := "text/plain",
    "html" := "text/html",
    "htm" := "text/html",
    "xml" := "text/xml",
    "csv" := "text/csv",
    "md" := "text/markdown",
    "markdown" := "text/markdown",
    "json" := "application/json",
    "js" := "application/javascript",
    "ts" := "application/typescript",
    "css" := "text/css",
    "rtf" := "application/rtf",
    "yaml" := "text/yaml",
    "yml" := "text/yaml"
  ]

  const DocumentTypes: map<string, string> := map[
    "pdf" := "application/pdf",
    "doc" := "application/msword",
    "docx" := "application/vnd.openxmlformats-officedocument.wordprocessingml.document",
    "xls" := "application/vnd.ms-excel",
    "xlsx" := "application/vnd.openxmlformats-officedocument.spreadsheetml.sheet",
    "ppt" := "application/vnd.ms-powerpoint",
    "pptx" := "application/vnd.openxmlformats-officedocument.presentationml.presentation",
    "odt" := "application/vnd.oasis.opendocument.text",
    "ods" := "application/vnd.oasis.opendocument.spreadsheet",
    "odp" := "application/vnd.oasis.opendocument.presentation"
  ]

  const ImageTypes: map<string, string> := map[
    "jpg" := "image/jpeg",
    "jpeg" := "image/jpeg",
    "png" := "image/png",
    "gif" := "image/gif",
    "svg" := "image/svg+xml",
    "webp" := "image/webp",
    "ico" := "image/x-icon",
    "bmp" := "image/bmp",
    "tiff" := "image/tiff",
    "tif" := "image/tiff"
  ]

  const AudioTypes: map<string, string> := map[
    "mp3" := "audio/mpeg",
    "wav" := "audio/wav",
    "ogg" := "audio/ogg",
    "m4a" := "audio/mp4",
    "flac" := "audio/flac",
    "aac" := "audio/aac"
  ]

  const VideoTypes: map<string, string> := map[
    "mp4" := "video/mp4",
    "avi" := "video/x-msvideo",
    "webm" := "video/webm",
    "mkv" := "video/x-matroska",
    "mov" := "video/quicktime",
    "wmv" := "video/x-ms-wmv",
    "flv" := "video/x-flv"
  ]

  const ArchiveTypes: map<string, string> := map[
    "zip" := "application/zip",
    "rar" := "application/vnd.rar",
    "7z" := "application/x-7z-compressed",
    "tar" := "application/x-tar",
    "gz" := "application/gzip"
  ]

  const FontTypes: map<string, string> := map[
    "ttf" := "font/ttf",
    "otf" := "font/otf",
    "woff" := "font/woff",
    "woff2" := "font/woff2"
  ]

  const SourceCodeTypes: map<string, string> := map[
    "java" := "text/x-java-source",
    "py" := "text/x-python",
    "cpp" := "text/x-c++src",
    "c" := "text/x-csrc",
    "cs" := "text/x-csharp",
    "php" := "application/x-php",
    "rb" := "text/x-ruby",
    "go" := "text/x-go",
    "swift" := "text/x-swift"
  ]

  const OtherBinaryTypes: map<string, string> := map[
    "exe" := "application/x-msdownload",
    "bin" := "application/octet-stream",
    "dll" := "application/x-msdownload",
    "iso" := "application/x-iso9660-image",
    "apk" := "application/vnd.android.package-archive",
    "dmg" := "application/x-apple-diskimage"
  ]

  /** m has no empty extension, and every MIME type of m is non-empty and ends in a
      character above U+0020. */
  ghost predicate VisibleTypes(m: map<string, string>)
  {
    && "" !in m
    && forall e :: e in m ==> |m[e]| > 0 && m[e][|m[e]| - 1] > ' '
  }

  lemma UnionVisibleTypes(m1: map<string, string>, m2: map<string, string>)
    requires VisibleTypes(m1) && VisibleTypes(m2)
    ensures VisibleTypes(m1 + m2)
  {
  }

  lemma TextTypesVisible() ensures VisibleTypes(TextTypes) {}
  lemma DocumentTypesVisible() ensures VisibleTypes(DocumentTypes) {}
  lemma ImageTypesVisible() ensures VisibleTypes(ImageTypes) {}
  lemma AudioTypesVisible() ensures VisibleTypes(AudioTypes) {}
  lemma VideoTypesVisible() ensures VisibleTypes(VideoTypes) {}
  lemma ArchiveTypesVisible() ensures VisibleTypes(ArchiveTypes) {}
  lemma FontTypesVisible() ensures VisibleTypes(FontTypes) {}
  lemma SourceCodeTypesVisible() ensures VisibleTypes(SourceCodeTypes) {}
  lemma OtherBinaryTypesVisible() ensures VisibleTypes(OtherBinaryTypes) {}

  /** The table has no empty extension, and every MIME type in it ends in a visible
      character. */
  lemma TableValuesVisible()
    ensures VisibleTypes(ExtensionTable)
  {
    TextTypesVisible();
    DocumentTypesVisible();
    ImageTypesVisible();
    AudioTypesVisible();
    VideoTypesVisible();
    ArchiveTypesVisible();
    FontTypesVisible();
    SourceCodeTypesVisible();
    OtherBinaryTypesVisible();
    UnionVisibleTypes(TextTypes, DocumentTypes);
    UnionVisibleTypes(TextTypes + DocumentTypes, ImageTypes);
    UnionVisibleTypes(TextTypes + DocumentTypes + ImageTypes, AudioTypes);
    UnionVisibleTypes(TextTypes + DocumentTypes + ImageTypes + AudioTypes, VideoTypes);
    var firstFive := TextTypes + DocumentTypes + ImageTypes + AudioTypes + VideoTypes;
    UnionVisibleTypes(firstFive, ArchiveTypes);
    UnionVisibleTypes(firstFive + ArchiveTypes, FontTypes);
    UnionVisibleTypes(firstFive + ArchiveTypes + FontTypes, SourceCodeTypes);
    UnionVisibleTypes(firstFive + ArchiveTypes + FontTypes + SourceCodeTypes, OtherBinaryTypes);
  }

  /** The extension inferContentTypeFromKey looks up: the lower-cased text after the
      last '.', when that '.' is not the first character; otherwise the empty string. */
  function Extension(key: string): (ext: string)
  {
    var dot := LastIndexOf(key, '.');
    if dot > 0 then ToLower(key[dot + 1..]) else ""
  }

  /** inferContentTypeFromKey: table lookup of the extension, octet-stream otherwise. */
  function InferContentTypeFromKey(key: string): (r: string)
    ensures !IsBlank(r)
  {
    var ext := Extension(key);
    TableValuesVisible();
    if ext in ExtensionTable then
      NotBlankWitness(ExtensionTable[ext], |ExtensionTable[ext]| - 1);
      ExtensionTable[ext]
    else
      NotBlankWitness(OctetStream, 0);
      OctetStream
  }

  /** Names that differ only in ASCII case have the same extension. */
  lemma ExtensionIgnoresCase(a: string, b: string)
    requires ToLower(a) == ToLower(b)
    ensures Extension(a) == Extension(b)
  {
    LastIndexOfIgnoresCase(a, b, '.');
    var dot := LastIndexOf(a, '.');
    if dot > 0 {
      ToLowerSuffix(a, dot + 1);
      ToLowerSuffix(b, dot + 1);
    }
  }

  /** Names that differ only in ASCII case get the same inferred type. */
  lemma InferContentTypeIgnoresCase(a: string, b: string)
    requires ToLower(a) == ToLower(b)
    ensures InferContentTypeFromKey(a) == InferContentTypeFromKey(b)
  {
    ExtensionIgnoresCase(a, b);
  }

  /** The type inferred for a name is the table entry of its extension when there is
      one, and application/octet-stream when the name has no '.' past its first
      character or an extension the table lacks. */
  lemma InferContentTypeCases(key: string)
    ensures LastIndexOf(key, '.') <= 0 ==> InferContentTypeFromKey(key) == OctetStream
    ensures Extension(key) !in ExtensionTable ==> InferContentTypeFromKey(key) == OctetStream
    ensures LastIndexOf(key, '.') > 0 && ToLower(key[LastIndexOf(key, '.') + 1..]) in ExtensionTable ==>
      InferContentTypeFromKey(key) == ExtensionTable[ToLower(key[LastIndexOf(key, '.') + 1..])]
  {
    TableValuesVisible();
  }

  // The entry for "pdf", checked one group at a time to keep each proof small.
  lemma PdfNotInImageTypes() ensures "pdf" !in ImageTypes {}
  lemma PdfNotInAudioTypes() ensures "pdf" !in AudioTypes {}
  lemma PdfNotInVideoTypes() ensures "pdf" !in VideoTypes {}
  lemma PdfNotInArchiveTypes() ensures "pdf" !in ArchiveTypes {}
  lemma PdfNotInFontTypes() ensures "pdf" !in FontTypes {}
  lemma PdfNotInSourceCodeTypes() ensures "pdf" !in SourceCodeTypes {}
  lemma PdfNotInOtherBinaryTypes() ensures "pdf" !in OtherBinaryTypes {}

  lemma PdfInDocumentTypes() ensures DocumentTypes["pdf"] == "application/pdf" {}

  /** An entry of the left map survives a union with a map that lacks its key. */
  lemma UnionKeepsEntry(m1: map<string, string>, m2: map<string, string>, k: string)
    requires k in m1 && k !in m2
    ensures k in m1 + m2 && (m1 + m2)[k] == m1[k]
  {
  }

  lemma PdfEntry()
    ensures "pdf" in ExtensionTable && ExtensionTable["pdf"] == "application/pdf"
  {
    PdfInDocumentTypes();
    PdfNotInImageTypes();
    PdfNotInAudioTypes();
    PdfNotInVideoTypes();
    PdfNotInArchiveTypes();
    PdfNotInFontTypes();
    PdfNotInSourceCodeTypes();
    PdfNotInOtherBinaryTypes();
    var m2 := TextTypes + DocumentTypes;
    UnionKeepsEntry(m2, ImageTypes, "pdf");
    UnionKeepsEntry(m2 + ImageTypes, AudioTypes, "pdf");
    UnionKeepsEntry(m2 + ImageTypes + AudioTypes, VideoTypes, "pdf");
    var m5 := m2 + ImageTypes + AudioTypes + VideoTypes;
    UnionKeepsEntry(m5, ArchiveTypes, "pdf");
    UnionKeepsEntry(m5 + ArchiveTypes, FontTypes, "pdf");
    UnionKeepsEntry(m5 + ArchiveTypes + FontTypes, SourceCodeTypes, "pdf");
    UnionKeepsEntry(m5 + ArchiveTypes + FontTypes + SourceCodeTypes, OtherBinaryTypes, "pdf");
  }

  /** An upper-case extension is found: "report.PDF" is a PDF. */
  lemma ReportPdfExample()
    ensures InferContentTypeFromKey("report.PDF") == "application/pdf"
  {
    var report := "report.PDF";
    assert report[6] == '.' && '.' !in report[7..];
    assert LastIndexOf(report, '.') == 6;
    assert ToLower(report[7..]) == "pdf";
    PdfEntry();
  }

  /** A name without a '.', or whose only '.' is its first character, is binary. */
  lemma NoExtensionExamples()
    ensures InferContentTypeFromKey("README") == OctetStream
    ensures InferContentTypeFromKey(".txt") == OctetStream
  {
    InferContentTypeCases("README");
    InferContentTypeCases(".txt");
    assert '.' !in "README";
    assert LastIndexOf("README", '.') == -1;
    assert ".txt"[0] == '.' && '.' !in ".txt"[1..];
    LastIndexOfAt(".txt", '.', 0);
  }

  /** Only the text after the last '.' is looked up. */
  lemma LastDotExample()
    ensures Extension("archive.tar.gz") == "gz"
  {
    var archive := "archive.tar.gz";
    assert archive[11] == '.' && '.' !in archive[12..];
    assert LastIndexOf(archive, '.') == 11;
    assert ToLower(archive[12..]) == "gz";
  }

  /** The structured application types the client treats as text. */
  const StructuredTextTypes: set<string> := {
    "application/json",
    "application/xml",
    "application/javascript",
    "application/typescript",
    "application/xhtml+xml",
    "application/x-www-form-urlencoded"
  }

  /** A lower-cased type is text-like when it starts with "text/", is one of the
      structured types, or is a +json/+xml type. */
  predicate TextLike(lower: string)
  {
    StartsWith(lower, "text/") || lower in StructuredTextTypes
    || Contains(lower, "+json") || Contains(lower, "+xml")
  }

  /** isTextContentType: a missing type is binary; otherwise its lower-cased form
      decides. Whatever is classified as text is neither null nor blank. */
  predicate IsTextContentType(contentType: Option<string>)
    ensures IsTextContentType(contentType) ==> contentType.Some? && !IsBlank(contentType.value)
  {
    match contentType
    case None => false
    case Some(t) =>
      if TextLike(ToLower(t)) then TextLikeNotBlank(t); true else false
  }

  /** A character of the lower-cased form above U+0020 stands for one above U+0020
      in the original. */
  lemma LowerVisible(t: string, i: nat)
    requires i < |t| && ToLower(t)[i] > ' '
    ensures !IsBlank(t)
  {
    assert LowerChar(ToLower(t)[i]) == LowerChar(t[i]);
    NotBlankWitness(t, i);
  }

  /** Each way of being text-like needs a visible character. */
  lemma TextLikeNotBlank(t: string)
    requires TextLike(ToLower(t))
    ensures !IsBlank(t)
  {
    var lower := ToLower(t);
    if StartsWith(lower, "text/") {
      assert lower[0] == 't';
      LowerVisible(t, 0);
    } else if lower in StructuredTextTypes {
      assert lower[0] == 'a';
      LowerVisible(t, 0);
    } else {
      var pattern := if Contains(lower, "+json") then "+json" else "+xml";
      ContainsIff(lower, pattern);
      var i: nat :| OccursAt(lower, pattern, i);
      assert lower[i] == lower[i..i + |pattern|][0] == '+';
      LowerVisible(t, i);
    }
  }

  /** Case never changes the answer: types equal up to ASCII case are both text or
      both binary. */
  lemma IsTextContentTypeIgnoresCase(a: string, b: string)
    requires ToLower(a) == ToLower(b)
    ensures IsTextContentType(Some(a)) == IsTextContentType(Some(b))
  {
  }

  /** A type without '+' whose lower-case form is neither text/... nor a structured
      text type is binary. */
  lemma NotTextLike(t: string)
    requires !StartsWith(ToLower(t), "text/") && ToLower(t) !in StructuredTextTypes
    requires '+' !in ToLower(t)
    ensures !IsTextContentType(Some(t))
  {
    NotContainsWithout(ToLower(t), "+json");
    NotContainsWithout(ToLower(t), "+xml");
  }

  lemma TextPlainIsText()
    ensures IsTextContentType(Some("text/plain"))
  {
    ToLowerOfLowerCase("text/plain");
  }

  lemma JsonIsText()
    ensures IsTextContentType(Some("application/json"))
  {
    ToLowerOfLowerCase("application/json");
  }

  lemma XmlIsText()
    ensures IsTextContentType(Some("application/xml"))
  {
    ToLowerOfLowerCase("application/xml");
  }

  lemma PlusJsonIsText()
    ensures IsTextContentType(Some("application/ld+json"))
  {
    ToLowerOfLowerCase("application/ld+json");
    ContainsAt("application/ld+json", "+json", 14);
  }

  lemma PngIsBinary()
    ensures !IsTextContentType(Some("image/png"))
  {
    ToLowerOfLowerCase("image/png");
    assert "image/png"[0] != "text/"[0];
    NotTextLike("image/png");
  }

  lemma OctetStreamIsBinary()
    ensures !IsTextContentType(Some(OctetStream))
  {
    ToLowerOfLowerCase(OctetStream);
    assert OctetStream[0] != "text/"[0];
    NotTextLike(OctetStream);
  }
}
