/** `CreateFileFilters` (Windows): the single `COMDLG_FILTERSPEC` offered
    by the open dialog for a file-type tag and an extension list. */
module WindowsFilters {
  import opened Wrappers
  import opened Patterns
  import opened Extensions

  /** A filter: its display name and its `;`-separated patterns. */
  datatype FilterSpec = FilterSpec(name: string, spec: string)

  const ImageExts: seq<string> := ["jpg", "jpeg", "png", "gif", "bmp", "tiff", "webp"]
  const VideoExts: seq<string> := ["mp4", "avi", "mkv", "mov", "wmv", "flv", "webm"]
  const AudioExts: seq<string> := ["mp3", "wav", "aiff", "m4a", "flac", "ogg"]
  const DocumentExts: seq<string> := [
    "pdf", "doc", "docx", "xls", "xlsx", "ppt", "pptx", "txt", "rtf", "md", "markdown",
    "odt", "ods", "odp", "html", "htm", "css", "js", "json", "xml", "csv", "zip", "rar",
    "7z", "tar", "gz", "php", "py", "c", "cpp", "java", "sh", "pl", "rb", "lua", "yaml",
    "yml", "epub", "ttf", "otf", "woff", "woff2"]

  const AllFiles: FilterSpec := FilterSpec("All Files", "*.*")

  /** The pattern list built for `"custom"`: `*.e1;*.e2;...` in input
      order. */
  function CustomSpec(exts: seq<string>): (r: string)
    requires |exts| > 0
    ensures |r| >= 2 && r[..2] == "*."
  {
    Join(Globs(exts))
  }

  /** The display name and extensions of the filter for one of the four
      fixed tags, or `None` for any other tag. */
  function FixedFilter(fileType: string): (r: Option<(string, seq<string>)>)
    ensures r.Some? ==> |r.value.1| > 0
  {
    if fileType == "image" then Some(("Image Files", ImageExts))
    else if fileType == "video" then Some(("Video Files", VideoExts))
    else if fileType == "audio" then Some(("Audio Files", AudioExts))
    else if fileType == "document" then Some(("Document Files", DocumentExts))
    else None
  }

  /** The filter of a fixed tag: its name and its extensions joined. */
  function FixedSpec(fixed: (string, seq<string>)): FilterSpec
    requires |fixed.1| > 0
  {
    FilterSpec(fixed.0, Join(Globs(fixed.1)))
  }

  /** `CreateFileFilters` with the custom pattern built afresh on every
      call: always exactly one filter. */
  function CreateFileFilters(fileType: string, exts: seq<string>): (r: seq<FilterSpec>)
    ensures |r| == 1
    ensures FixedFilter(fileType).Some? ==> r[0] == FixedSpec(FixedFilter(fileType).value)
    ensures FixedFilter(fileType).None? && fileType == "custom" && |exts| > 0 ==>
      r[0] == FilterSpec("Custom Files", CustomSpec(exts))
    ensures FixedFilter(fileType).None? && (fileType != "custom" || |exts| == 0) ==> r[0] == AllFiles
  {
    match FixedFilter(fileType)
    case Some(f) => [FixedSpec(f)]
    case None =>
      if fileType == "custom" && |exts| > 0 then [FilterSpec("Custom Files", CustomSpec(exts))]
      else [AllFiles]
  }

  /** `CreateFileFilters` as written: the custom pattern lives in a
      function-local `static`, initialised by the first call that reaches
      it and never again. `cache` is that variable (`None` before its
      initialisation). A call that is not a `custom` call with extensions
      returns before the `static` and neither reads nor sets it. */
  function CreateFileFiltersAsWritten(cache: Option<string>, fileType: string, exts: seq<string>): (r: (seq<FilterSpec>, Option<string>))
    ensures |r.0| == 1
    ensures cache.Some? ==> r.1 == cache
    ensures FixedFilter(fileType).None? && fileType == "custom" && |exts| > 0 ==>
      r.1.Some? && r.0[0] == FilterSpec("Custom Files", r.1.value)
    ensures !(fileType == "custom" && |exts| > 0) ==> r.0 == CreateFileFilters(fileType, exts) && r.1 == cache
  {
    match FixedFilter(fileType)
    case Some(f) => ([FixedSpec(f)], cache)
    case None =>
      if fileType == "custom" && |exts| > 0 then
        var stored := cache.GetOr(CustomSpec(exts));
        ([FilterSpec("Custom Files", stored)], Some(stored))
      else ([AllFiles], cache)
  }

  /** Until the `static` is initialised, the code as written agrees with
      the corrected function, and the first custom call fills it with its
      own pattern. */
  lemma AsWrittenAgreesAtFirst(fileType: string, exts: seq<string>)
    ensures CreateFileFiltersAsWritten(None, fileType, exts).0 == CreateFileFilters(fileType, exts)
  {
  }

  /** Once initialised, every custom call gets the first pattern back,
      whatever extensions it asked for. */
  lemma CustomPatternIsFrozen(first: seq<string>, later: seq<string>)
    requires |first| > 0 && |later| > 0
    ensures var cache := CreateFileFiltersAsWritten(None, "custom", first).1;
      CreateFileFiltersAsWritten(cache, "custom", later).0 == [FilterSpec("Custom Files", CustomSpec(first))]
  {
    CustomIsNotFixed();
  }

  lemma CustomIsNotFixed()
    ensures FixedFilter("custom").None?
  {
  }

  /** Concretely: asking for `png` and then for `pdf` offers `*.png` the
      second time, where `*.pdf` was meant. */
  lemma FrozenPatternExample()
    ensures var cache := CreateFileFiltersAsWritten(None, "custom", ["png"]).1;
      CreateFileFiltersAsWritten(cache, "custom", ["pdf"]).0[0].spec == "*.png"
    ensures CreateFileFilters("custom", ["pdf"])[0].spec == "*.pdf"
  {
    CustomPatternIsFrozen(["png"], ["pdf"]);
    assert "*." + "png" == "*.png" && Globs(["png"]) == ["*.png"];
    assert "*." + "pdf" == "*.pdf" && Globs(["pdf"]) == ["*.pdf"];
  }

  /** The custom pattern lists the requested extensions in order: cutting
      it at its semicolons gives one `*.ext` per extension. */
  lemma CustomSpecLists(exts: seq<string>)
    requires |exts| > 0
    requires forall i :: 0 <= i < |exts| ==> ';' !in exts[i]
    ensures Split(CustomSpec(exts)) == Globs(exts)
  {
    GlobsHaveNoSemicolon(exts);
    SplitJoin(Globs(exts));
  }

  /** The image filter offers exactly the extensions the Windows image
      test accepts (its extensions without the dot). */
  lemma ImageFilterMatchesImageTest(e: string)
    ensures e in ImageExts <==> "." + e in WindowsImageExtensions
  {
    ImageExtsAreDotted();
    DottedAreImageExts();
    assert ("." + e)[1..] == e;
  }

  lemma ImageExtsAreDotted()
    ensures forall e :: e in ImageExts ==> "." + e in WindowsImageExtensions
  {
    assert "." + "jpg" == ".jpg";
    assert "." + "jpeg" == ".jpeg";
    assert "." + "png" == ".png";
    assert "." + "gif" == ".gif";
    assert "." + "bmp" == ".bmp";
    assert "." + "tiff" == ".tiff";
    assert "." + "webp" == ".webp";
  }

  lemma DottedAreImageExts()
    ensures forall k :: k in WindowsImageExtensions ==> k[1..] in ImageExts
  {
  }
}
