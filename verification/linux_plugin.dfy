/** The Linux plugin's method handling: argument parsing, the file chooser
    filter, the per-file result map with its compression and data
    decisions, and the routing of method names. The chooser, the file
    system and the image codec are inputs. */
module LinuxPlugin {
  import opened Ints
  import opened Wrappers
  import opened Values
  import opened Patterns
  import opened Extensions
  import opened TempFiles
  import Base64
  import WindowsFilters

  /** The arguments of `pickFiles` after parsing. */
  datatype PickOptions = PickOptions(
    fileType: string,
    allowMultiple: bool,
    allowedExtensions: seq<string>,
    withData: bool,
    allowCompression: bool,
    compressionQuality: Int32)

  const Defaults: PickOptions := PickOptions("any", false, [], false, true, 85)

  /** `create_error_response`: the code and message are repeated in a
      details map. */
  function ErrorResponse(code: string, message: string): (r: Response)
    ensures r.Error? && r.code == code && r.message == message
    ensures r.details.Map? && r.details.entries.Keys == {"code", "message"}
    ensures r.details.entries["code"] == Str(code) && r.details.entries["message"] == Str(message)
  {
    Error(code, message, Map(map["code" := Str(code), "message" := Str(message)]))
  }

  /** An `FL_VALUE_TYPE_INT` entry holds an `int64_t`; the plugin stores it
      in an `int`, keeping the low 32 bits. Both integer kinds of the
      channel are `FL_VALUE_TYPE_INT` here. */
  function IntField(args: map<string, Value>, key: string, default: Int32): (r: Int32)
  {
    if key in args && args[key].Int32? then args[key].i
    else if key in args && args[key].Int64? then ToInt32(args[key].l)
    else default
  }

  /** The prologue of `handle_pick_files`: `None` when the arguments are not
      a map, otherwise each option read with the right type or left at its
      default. */
  function ParseArgs(args: Value): (r: Option<PickOptions>)
    ensures r.None? <==> !args.Map?
    ensures r.Some? ==>
      r.value.fileType == StringField(args.entries, "type", Defaults.fileType) &&
      r.value.allowMultiple == BoolField(args.entries, "allowMultiple", Defaults.allowMultiple) &&
      r.value.allowedExtensions == StringListField(args.entries, "allowedExtensions") &&
      r.value.withData == BoolField(args.entries, "withData", Defaults.withData) &&
      r.value.allowCompression == BoolField(args.entries, "allowCompression", Defaults.allowCompression) &&
      r.value.compressionQuality == IntField(args.entries, "compressionQuality", Defaults.compressionQuality)
  {
    if !args.Map? then None
    else
      var m := args.entries;
      Some(PickOptions(
        StringField(m, "type", "any"),
        BoolField(m, "allowMultiple", false),
        StringListField(m, "allowedExtensions"),
        BoolField(m, "withData", false),
        BoolField(m, "allowCompression", true),
        IntField(m, "compressionQuality", 85)))
  }

  /** The argument map the Dart side sends for a set of options. */
  function ToArgs(o: PickOptions): (r: Value)
    ensures r.Map?
  {
    Map(map[
      "type" := Str(o.fileType),
      "allowMultiple" := Bool(o.allowMultiple),
      "allowedExtensions" := List(Strs(o.allowedExtensions)),
      "withData" := Bool(o.withData),
      "allowCompression" := Bool(o.allowCompression),
      "compressionQuality" := Int32(o.compressionQuality)])
  }

  /** Parsing the map built from a set of options gives the options back. */
  lemma ParseToArgs(o: PickOptions)
    ensures ParseArgs(ToArgs(o)) == Some(o)
  {
    var m := ToArgs(o).entries;
    assert m["type"] == Str(o.fileType);
    assert m["allowMultiple"] == Bool(o.allowMultiple);
    assert m["allowedExtensions"] == List(Strs(o.allowedExtensions));
    assert m["withData"] == Bool(o.withData);
    assert m["allowCompression"] == Bool(o.allowCompression);
    assert m["compressionQuality"] == Int32(o.compressionQuality);
    StringsOfStrs(o.allowedExtensions);
  }

  /** An empty map gives the defaults. */
  lemma ParseEmpty()
    ensures ParseArgs(Map(map[])) == Some(Defaults)
  {
  }

  /** A quality sent as a 64-bit integer keeps only its low 32 bits, so
      2^32 + 50 becomes 50. */
  lemma QualityIsTruncated(m: map<string, Value>)
    ensures ParseArgs(Map(m["compressionQuality" := Int64(0x1_0000_0032)])).value.compressionQuality == 50
  {
  }

  /** The kind of value each option accepts. */
  predicate Accepts(key: string, v: Value) {
    if key == "type" then v.Str?
    else if key == "allowMultiple" || key == "withData" || key == "allowCompression" then v.Bool?
    else if key == "allowedExtensions" then v.List?
    else if key == "compressionQuality" then v.Int32? || v.Int64?
    else false
  }

  /** A value of the wrong kind is the same as no value at all. */
  lemma WrongKindIsIgnored(m: map<string, Value>, key: string, v: Value)
    requires !Accepts(key, v)
    ensures ParseArgs(Map(m[key := v])) == ParseArgs(Map(map k | k in m && k != key :: m[k]))
  {
  }

  /** Only the string entries of the extension list survive, in order. */
  lemma ExtensionsKeepOrder(m: map<string, Value>, a: seq<Value>, b: seq<Value>)
    ensures ParseArgs(Map(m["allowedExtensions" := List(a + b)])).value.allowedExtensions
      == StringsOf(a) + StringsOf(b)
  {
    StringsOfAppend(a, b);
  }

  // ---------------------------------------------------------------------
  // The chooser filter

  /** A `GtkFileFilter`: by MIME type or by a list of glob patterns. */
  datatype ChooserFilter = MimeFilter(name: string, mimeType: string) | PatternFilter(name: string, exts: seq<string>) {
    /** The patterns added to a pattern filter: `*.ext` per extension. */
    function Patterns(): (r: seq<string>)
      requires PatternFilter?
      ensures |r| == |exts|
    {
      Globs(exts)
    }
  }

  /** The document extensions, in the order the Linux plugin adds them. */
  const DocumentExts: seq<string> := [
    "pdf", "doc", "docx", "xls", "xlsx", "ppt", "pptx", "txt", "rtf", "md", "markdown",
    "odt", "ods", "odp", "html", "htm", "css", "js", "json", "xml", "csv", "yaml", "yml",
    "php", "py", "c", "cpp", "java", "sh", "pl", "rb", "lua", "zip", "rar", "7z", "tar",
    "gz", "bz2", "ttf", "otf", "woff", "woff2", "epub"]

  /** The filter set on the chooser, or `None` for no filter. */
  function Filter(fileType: string, exts: seq<string>): (r: Option<ChooserFilter>)
    ensures r.None? <==> fileType !in {"image", "video", "audio", "document"} && |exts| == 0
    ensures fileType !in {"image", "video", "audio", "document"} && |exts| > 0 ==>
      r == Some(PatternFilter("Allowed Files", exts))
    ensures fileType == "image" ==> r == Some(MimeFilter("Images", "image/*"))
    ensures fileType == "video" ==> r == Some(MimeFilter("Videos", "video/*"))
    ensures fileType == "audio" ==> r == Some(MimeFilter("Audio", "audio/*"))
    ensures fileType == "document" ==> r == Some(PatternFilter("Documents", DocumentExts))
  {
    if fileType == "image" then Some(MimeFilter("Images", "image/*"))
    else if fileType == "video" then Some(MimeFilter("Videos", "video/*"))
    else if fileType == "audio" then Some(MimeFilter("Audio", "audio/*"))
    else if fileType == "document" then Some(PatternFilter("Documents", DocumentExts))
    else if |exts| > 0 then Some(PatternFilter("Allowed Files", exts))
    else None
  }

  /** `"custom"` has no branch of its own: any tag other than the four
      fixed ones behaves exactly like it. */
  lemma CustomIsNotSpecial(fileType: string, exts: seq<string>)
    requires fileType !in {"image", "video", "audio", "document"}
    ensures Filter(fileType, exts) == Filter("custom", exts)
  {
  }

  /** The fixed tags ignore the extension list. */
  lemma FixedTagsIgnoreExtensions(fileType: string, a: seq<string>, b: seq<string>)
    requires fileType in {"image", "video", "audio", "document"}
    ensures Filter(fileType, a) == Filter(fileType, b)
  {
  }

  /** The document patterns of Linux are those of Windows plus `bz2`. */
  lemma DocumentsAreWindowsPlusBz2()
    ensures forall e :: e in DocumentExts <==> e in WindowsFilters.DocumentExts || e == "bz2"
  {
  }

  // ---------------------------------------------------------------------
  // One picked file

  /** What the file system and the codec answer for one chosen file:
      `name` is `path.filename()`, `size` is `None` when `file_size`
      throws, `random` is the `g_random_int()` drawn for a temporary name
      and `compressed` is what `compress_image` returns. */
  datatype Chosen = Chosen(path: string, name: string, size: Option<UInt64>, random: UInt32, compressed: bool)

  /** Whether compression is attempted for a file. */
  predicate CompressionAttempted(o: PickOptions, path: string) {
    o.allowCompression && IsImageFile(path) && o.compressionQuality < 100
  }

  /** The entries every file gets: its path, name, size (0 when the size
      cannot be read) and extension. */
  function BaseEntries(f: Chosen): (m: map<string, Value>)
    ensures m.Keys == {"path", "name", "size", "extension"}
    ensures m["path"] == Str(f.path) && m["name"] == Str(f.name)
    ensures m["extension"] == Str(FileExtension(f.path))
    ensures m["size"] == Int64(match f.size case Some(s) => ToInt64(s) case None => 0)
  {
    map[
      "path" := Str(f.path),
      "name" := Str(f.name),
      "size" := Int64(match f.size case Some(s) => ToInt64(s) case None => 0),
      "extension" := Str(FileExtension(f.path))]
  }

  /** The `bytes` entry: the base 64 text of the file, or `null` when it
      cannot be read. */
  function DataEntry(contents: Option<seq<Byte>>): (v: Value)
  {
    match contents
    case Some(d) => Str(Base64.Encode(d))
    case None => Null
  }

  /** The per-file part of `handle_pick_files`: the file's map and the
      temporary paths it created. `read` is `read_file_bytes`, `None`
      when it throws. */
  function Describe(f: Chosen, o: PickOptions, tmpDir: string, read: string -> Option<seq<Byte>>): (r: (Value, seq<string>))
    ensures r.0.Map?
    ensures r.0.entries.Keys == BaseEntries(f).Keys + (if o.withData then {"bytes"} else {})
    ensures forall k :: k in BaseEntries(f) ==> r.0.entries[k] == BaseEntries(f)[k]
    ensures o.withData ==> r.0.entries["bytes"] == DataEntry(read(FinalPath(f, o, tmpDir)))
    ensures r.1 == [] <==> !CompressionAttempted(o, f.path)
    ensures CompressionAttempted(o, f.path) ==> r.1 == [LinuxTempPath(tmpDir, f.random, "jpg")]
  {
    var created := if CompressionAttempted(o, f.path) then [LinuxTempPath(tmpDir, f.random, "jpg")] else [];
    if o.withData then (Map(BaseEntries(f)["bytes" := DataEntry(read(FinalPath(f, o, tmpDir)))]), created)
    else (Map(BaseEntries(f)), created)
  }

  /** The path whose bytes are sent: the compressed copy when compression
      was attempted and succeeded, the original otherwise. */
  function FinalPath(f: Chosen, o: PickOptions, tmpDir: string): string {
    if CompressionAttempted(o, f.path) && f.compressed then LinuxTempPath(tmpDir, f.random, "jpg") else f.path
  }

  /** The map holds exactly the four entries, plus `bytes` when data was
      asked for; the data sent is the standard base 64 text of the final
      file, or `null` when it cannot be read, and a failed compression
      falls back to the original file. */
  lemma DescribeData(f: Chosen, o: PickOptions, tmpDir: string, read: string -> Option<seq<Byte>>)
    ensures Describe(f, o, tmpDir, read).0.entries.Keys ==
      {"path", "name", "size", "extension"} + (if o.withData then {"bytes"} else {})
    ensures Describe(f, o, tmpDir, read).0.entries["size"] ==
      Int64(match f.size case Some(s) => ToInt64(s) case None => 0)
    ensures o.withData ==> var bytes := Describe(f, o, tmpDir, read).0.entries["bytes"];
      match read(FinalPath(f, o, tmpDir))
      case Some(d) => bytes == Str(Base64.Encode(d))
      case None => bytes == Null
    ensures !f.compressed ==> FinalPath(f, o, tmpDir) == f.path
    ensures CompressionAttempted(o, f.path) && f.compressed ==>
      FinalPath(f, o, tmpDir) == LinuxTempPath(tmpDir, f.random, "jpg")
  {
  }

  /** Compression is never attempted at quality 100 or above, for a file
      that is not an image, or when it is switched off. */
  lemma NoCompressionCases(f: Chosen, o: PickOptions, tmpDir: string, read: string -> Option<seq<Byte>>)
    requires !o.allowCompression || !IsImageFile(f.path) || o.compressionQuality >= 100
    ensures Describe(f, o, tmpDir, read).1 == []
    ensures FinalPath(f, o, tmpDir) == f.path
  {
  }

  /** The temporary paths a pick creates: one compressed copy per file
      for which compression is attempted, in the order of the files. */
  function CreatedPaths(files: seq<Chosen>, o: PickOptions, tmpDir: string): (r: seq<string>)
    ensures |r| <= |files|
    ensures !o.allowCompression ==> r == []
    decreases |files|
  {
    if |files| == 0 then []
    else
      (if CompressionAttempted(o, files[0].path) then [LinuxTempPath(tmpDir, files[0].random, "jpg")] else [])
      + CreatedPaths(files[1..], o, tmpDir)
  }

  /** Whether `p` is the compressed copy made for `f`. */
  predicate IsCopyOf(p: string, f: Chosen, o: PickOptions, tmpDir: string) {
    CompressionAttempted(o, f.path) && p == LinuxTempPath(tmpDir, f.random, "jpg")
  }

  /** Every path created is the compressed copy of one of the files. */
  lemma {:induction false} CreatedPathsAreCopies(files: seq<Chosen>, o: PickOptions, tmpDir: string)
    ensures forall p :: p in CreatedPaths(files, o, tmpDir) ==> exists i :: 0 <= i < |files| && IsCopyOf(p, files[i], o, tmpDir)
    decreases |files|
  {
    if |files| > 0 {
      var rest := files[1..];
      CreatedPathsAreCopies(rest, o, tmpDir);
      forall p | p in CreatedPaths(files, o, tmpDir)
        ensures exists i :: 0 <= i < |files| && IsCopyOf(p, files[i], o, tmpDir)
      {
        if p !in CreatedPaths(rest, o, tmpDir) {
          assert IsCopyOf(p, files[0], o, tmpDir);
        } else {
          var k :| 0 <= k < |rest| && IsCopyOf(p, rest[k], o, tmpDir);
          assert files[k + 1] == rest[k];
        }
      }
    }
  }

  /** Every file for which compression is attempted has its copy among
      the paths created. */
  lemma {:induction false} CopiesAreCreated(files: seq<Chosen>, o: PickOptions, tmpDir: string)
    ensures forall i :: 0 <= i < |files| && CompressionAttempted(o, files[i].path) ==>
      LinuxTempPath(tmpDir, files[i].random, "jpg") in CreatedPaths(files, o, tmpDir)
    decreases |files|
  {
    if |files| > 0 {
      var rest := files[1..];
      CopiesAreCreated(rest, o, tmpDir);
      assert forall i :: 1 <= i < |files| ==> files[i] == rest[i - 1];
    }
  }

  /** The maps of all chosen files, in order, and the temporary paths they
      created. */
  function DescribeAll(files: seq<Chosen>, o: PickOptions, tmpDir: string, read: string -> Option<seq<Byte>>): (r: (seq<Value>, seq<string>))
    ensures |r.0| == |files|
    ensures forall i :: 0 <= i < |files| ==> r.0[i] == Describe(files[i], o, tmpDir, read).0
    ensures r.1 == CreatedPaths(files, o, tmpDir)
  {
    (seq(|files|, i requires 0 <= i < |files| => Describe(files[i], o, tmpDir, read).0), CreatedPaths(files, o, tmpDir))
  }

  /** How the chooser closed: accepted with the chosen files, or not. */
  datatype Outcome = Accept(files: seq<Chosen>) | Dismiss

  /** `handle_pick_files`: the reply and the temporary paths created. */
  function HandlePickFiles(args: Value, outcome: Outcome, tmpDir: string, read: string -> Option<seq<Byte>>): (r: (Response, seq<string>))
    ensures !args.Map? ==> r == (ErrorResponse("invalid_arguments", "Arguments must be a map"), [])
    ensures args.Map? && outcome.Dismiss? ==> r == (Success(Null), [])
    ensures args.Map? && outcome.Accept? ==>
      r.0.Success? && r.0.value.List? && |r.0.value.items| == |outcome.files| &&
      r.1 == CreatedPaths(outcome.files, ParseArgs(args).value, tmpDir)
    ensures args.Map? && outcome.Accept? ==>
      r.0.value.items == DescribeAll(outcome.files, ParseArgs(args).value, tmpDir, read).0
  {
    match ParseArgs(args)
    case None => (ErrorResponse("invalid_arguments", "Arguments must be a map"), [])
    case Some(o) =>
      match outcome
      case Dismiss => (Success(Null), [])
      case Accept(files) =>
        var all := DescribeAll(files, o, tmpDir, read);
        (Success(List(all.0)), all.1)
  }

  // ---------------------------------------------------------------------
  // Plugin state and method routing

  const CameraMessage: string :=
    "Camera capture is not directly supported on Linux without additional dependencies. Please use file picker to select images."

  /** `handle_capture_photo`: always the same error. */
  function HandleCapturePhoto(args: Value): (r: Response)
    ensures r == ErrorResponse("CAMERA_NOT_SUPPORTED", CameraMessage)
  {
    ErrorResponse("CAMERA_NOT_SUPPORTED", CameraMessage)
  }

  /** `temporary_files`: `None` once `dispose` deleted the list. */
  type Tracked = Option<seq<string>>

  /** `image_picker_master_plugin_init`. */
  function Init(): (r: Tracked)
    ensures r == Some([])
  {
    Some([])
  }

  /** `cleanup_temp_files`: clears the list, if there is one. */
  function CleanupList(t: Tracked): (r: Tracked)
    ensures r.None? <==> t.None?
    ensures r.Some? ==> r.value == []
  {
    match t
    case None => None
    case Some(paths) => Some(Cleanup(paths).1)
  }

  /** `dispose`: a cleanup, then the list is deleted. The result is the
      paths the cleanup removes and the list left behind. */
  function Dispose(t: Tracked): (r: (seq<string>, Tracked))
    ensures r.1.None?
    ensures t.None? ==> r.0 == []
    ensures t.Some? ==> |r.0| == |t.value| && multiset(r.0) == multiset(t.value)
  {
    match t
    case None => ([], None)
    case Some(paths) => (Cleanup(paths).0, None)
  }

  /** `image_picker_master_plugin_handle_method_call` as written: the pick
      handler has no access to the plugin, so the list never changes. */
  function HandleMethodCallAsWritten(t: Tracked, methodName: string, args: Value, outcome: Outcome,
                                     tmpDir: string, read: string -> Option<seq<Byte>>, version: string): (r: (Tracked, Response))
    ensures r.0 == t
    ensures methodName == "getPlatformVersion" ==> r.1 == Success(Str("Linux " + version))
    ensures methodName == "pickFiles" ==> r.1 == HandlePickFiles(args, outcome, tmpDir, read).0
  {
    if methodName == "getPlatformVersion" then (t, Success(Str("Linux " + version)))
    else if methodName == "pickFiles" then (t, HandlePickFiles(args, outcome, tmpDir, read).0)
    else if methodName == "capturePhoto" then (t, HandleCapturePhoto(args))
    else (t, NotImplemented)
  }

  /** The same routing with the temporary paths a pick creates recorded in
      the plugin's list, so that a later cleanup removes them. */
  function HandleMethodCall(t: Tracked, methodName: string, args: Value, outcome: Outcome,
                            tmpDir: string, read: string -> Option<seq<Byte>>, version: string): (r: (Tracked, Response))
    ensures r.1 == HandleMethodCallAsWritten(t, methodName, args, outcome, tmpDir, read, version).1
    ensures methodName == "pickFiles" && t.Some? ==>
      r.0 == Some(t.value + HandlePickFiles(args, outcome, tmpDir, read).1)
    ensures methodName != "pickFiles" ==> r.0 == t
  {
    if methodName == "pickFiles" then
      var (response, created) := HandlePickFiles(args, outcome, tmpDir, read);
      (match t case Some(paths) => Some(paths + created) case None => None, response)
    else HandleMethodCallAsWritten(t, methodName, args, outcome, tmpDir, read, version)
  }

  /** Routing: `capturePhoto` always fails with `CAMERA_NOT_SUPPORTED`,
      unknown names are not implemented, and there is no
      `clearTemporaryFiles` route on Linux. */
  lemma Routing(t: Tracked, args: Value, outcome: Outcome, tmpDir: string, read: string -> Option<seq<Byte>>,
                version: string, other: string)
    requires other !in {"getPlatformVersion", "pickFiles", "capturePhoto"}
    ensures HandleMethodCall(t, "capturePhoto", args, outcome, tmpDir, read, version).1.Error?
    ensures HandleMethodCall(t, "capturePhoto", args, outcome, tmpDir, read, version).1.code == "CAMERA_NOT_SUPPORTED"
    ensures HandleMethodCall(t, other, args, outcome, tmpDir, read, version) == (t, NotImplemented)
    ensures HandleMethodCall(t, "clearTemporaryFiles", args, outcome, tmpDir, read, version) == (t, NotImplemented)
  {
  }

  /** A pick that compresses an image: as written the plugin's list is
      unchanged, so the later cleanup or `dispose` never sees the
      compressed copy; with the path recorded, the list holds it. */
  lemma CompressedCopyLeaks(args: Value, o: PickOptions, f: Chosen, tmpDir: string, read: string -> Option<seq<Byte>>)
    requires ParseArgs(args) == Some(o) && CompressionAttempted(o, f.path)
    ensures HandleMethodCallAsWritten(Init(), "pickFiles", args, Accept([f]), tmpDir, read, "").0 == Some([])
    ensures HandleMethodCall(Init(), "pickFiles", args, Accept([f]), tmpDir, read, "").0 ==
      Some([LinuxTempPath(tmpDir, f.random, "jpg")])
  {
    var temp := LinuxTempPath(tmpDir, f.random, "jpg");
    assert [f][1..] == [];
    assert CreatedPaths([f], o, tmpDir) == [temp];
    assert HandlePickFiles(args, Accept([f]), tmpDir, read).1 == [temp];
    assert [] + [temp] == [temp];
  }

  /** With the default options every image file is compressed. */
  lemma DefaultsCompressImages(path: string)
    requires IsImageFile(path)
    ensures ParseArgs(ToArgs(Defaults)) == Some(Defaults)
    ensures CompressionAttempted(Defaults, path)
  {
    ParseToArgs(Defaults);
  }
}
