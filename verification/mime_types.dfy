/** `GetMimeType` (Windows): the MIME type of a file extension, found by
    lowering the extension and looking it up in a fixed table. */
module MimeTypes {
  import opened Wrappers
  import opened Ascii
  import opened Extensions

  const OctetStream: string := "application/octet-stream"
  const ImagePrefix: string := "image/"

  /** The lookup table. Every key is a dot followed by a lower-case
      extension; the cases below list what follows the dot. */
  function Entry(key: string): Option<string> {
    if |key| == 0 || key[0] != '.' then None
    else
    match key[1..]
    case "jpg" => Some("image/jpeg")
    case "jpeg" => Some("image/jpeg")
    case "png" => Some("image/png")
    case "gif" => Some("image/gif")
    case "bmp" => Some("image/bmp")
    case "tiff" => Some("image/tiff")
    case "webp" => Some("image/webp")
    case "svg" => Some("image/svg+xml")
    case "ico" => Some("image/x-icon")
    case "heic" => Some("image/heic")
    case "heif" => Some("image/heif")
    case "avif" => Some("image/avif")
    case "mp4" => Some("video/mp4")
    case "avi" => Some("video/x-msvideo")
    case "mov" => Some("video/quicktime")
    case "mkv" => Some("video/x-matroska")
    case "wmv" => Some("video/x-ms-wmv")
    case "flv" => Some("video/x-flv")
    case "webm" => Some("video/webm")
    case "3gp" => Some("video/3gpp")
    case "3g2" => Some("video/3gpp2")
    case "mp3" => Some("audio/mpeg")
    case "wav" => Some("audio/wav")
    case "m4a" => Some("audio/mp4")
    case "flac" => Some("audio/flac")
    case "ogg" => Some("audio/ogg")
    case "aac" => Some("audio/aac")
    case "midi" => Some("audio/midi")
    case "opus" => Some("audio/opus")
    case "aiff" => Some("audio/x-aiff")
    case "pdf" => Some("application/pdf")
    case "doc" => Some("application/msword")
    case "docx" => Some("application/vnd.openxmlformats-officedocument.wordprocessingml.document")
    case "xls" => Some("application/vnd.ms-excel")
    case "xlsx" => Some("application/vnd.openxmlformats-officedocument.spreadsheetml.sheet")
    case "ppt" => Some("application/vnd.ms-powerpoint")
    case "pptx" => Some("application/vnd.openxmlformats-officedocument.presentationml.presentation")
    case "txt" => Some("text/plain")
    case "rtf" => Some("text/rtf")
    case "md" => Some("text/markdown")
    case "markdown" => Some("text/markdown")
    case "odt" => Some("application/vnd.oasis.opendocument.text")
    case "ods" => Some("application/vnd.oasis.opendocument.spreadsheet")
    case "odp" => Some("application/vnd.oasis.opendocument.presentation")
    case "html" => Some("text/html")
    case "htm" => Some("text/html")
    case "css" => Some("text/css")
    case "js" => Some("text/javascript")
    case "json" => Some("application/json")
    case "xml" => Some("application/xml")
    case "csv" => Some("text/csv")
    case "yaml" => Some("text/yaml")
    case "yml" => Some("text/yaml")
    case "php" => Some("application/x-httpd-php")
    case "py" => Some("text/x-python")
    case "c" => Some("text/x-c")
    case "cpp" => Some("text/x-c++")
    case "java" => Some("text/x-java-source")
    case "sh" => Some("application/x-sh")
    case "pl" => Some("text/x-perl")
    case "rb" => Some("text/x-ruby")
    case "lua" => Some("text/x-lua")
    case "zip" => Some("application/zip")
    case "rar" => Some("application/x-rar-compressed")
    case "7z" => Some("application/x-7z-compressed")
    case "tar" => Some("application/x-tar")
    case "gz" => Some("application/gzip")
    case "bz2" => Some("application/x-bzip2")
    case "ttf" => Some("font/ttf")
    case "otf" => Some("font/otf")
    case "woff" => Some("font/woff")
    case "woff2" => Some("font/woff2")
    case "epub" => Some("application/epub+zip")
    case _ => None
  }

  predicate StartsWith(s: string, prefix: string) {
    |prefix| <= |s| && s[..|prefix|] == prefix
  }

  /** The MIME type of `ext`, or `application/octet-stream` when the lowered
      extension is not in the table. */
  function GetMimeType(ext: string): (r: string)
    ensures r == OctetStream || Entry(ToLower(ext)) == Some(r)
  {
    match Entry(ToLower(ext))
    case Some(m) => m
    case None => OctetStream
  }

  /** The lookup ignores letter case. */
  lemma MimeTypeIgnoresCase(a: string, b: string)
    requires ToLower(a) == ToLower(b)
    ensures GetMimeType(a) == GetMimeType(b)
  {
  }

  /** Lowering first does not change the answer. */
  lemma MimeTypeOfLowered(ext: string)
    ensures GetMimeType(ToLower(ext)) == GetMimeType(ext)
  {
    ToLowerIdempotent(ext);
  }

  /** An extension outside the table, in any letter case, falls back to
      `application/octet-stream`; one inside gets its entry. */
  lemma MimeTypeLookup(ext: string)
    ensures Entry(ToLower(ext)).None? ==> GetMimeType(ext) == OctetStream
    ensures Entry(ToLower(ext)).Some? ==> GetMimeType(ext) == Entry(ToLower(ext)).value
  {
  }

  /** `.jpg` and `.JPG` are both JPEG images. */
  lemma JpegInAnyCase()
    ensures GetMimeType(".jpg") == "image/jpeg"
    ensures GetMimeType(".JPG") == "image/jpeg"
  {
    ToLowerIs(".jpg", ".jpg");
    ToLowerIs(".JPG", ".jpg");
    JpgEntry();
  }

  lemma JpgEntry()
    ensures Entry(".jpg") == Some("image/jpeg")
  {
  }

  /** Every key of the table starts with a dot. */
  lemma KeysAreDotted()
    ensures forall k :: Entry(k).Some? ==> |k| > 0 && k[0] == '.'
  {
  }

  /** An extension without a dot, as Linux spells them, is never found. */
  lemma DotlessIsOctetStream(ext: string)
    requires '.' !in ext
    ensures GetMimeType(ext) == OctetStream
  {
    KeysAreDotted();
  }

  /** The seven extensions the Windows image test accepts all map to an
      `image/` type, so a file that passes that test is also compressed by
      the `image/` check of `ProcessFileItem`. */
  lemma ImageExtensionsHaveImageTypes(ext: string)
    requires IsImageExtension(ext)
    ensures StartsWith(GetMimeType(ext), ImagePrefix)
  {
    ImageEntries();
  }

  lemma ImageEntries()
    ensures forall k :: k in WindowsImageExtensions ==> Entry(k).Some? && StartsWith(Entry(k).value, ImagePrefix)
  {
  }

  /** The converse fails: `.svg` has an `image/` type but is not an image
      for the Windows test. */
  lemma SvgIsImageTypeOnly()
    ensures StartsWith(GetMimeType(".svg"), ImagePrefix)
    ensures !IsImageExtension(".svg")
  {
    ToLowerIs(".svg", ".svg");
    assert Entry(".svg") == Some("image/svg+xml");
  }
}
