/** The Windows plugin's method handling: argument parsing, the decisions
    around the open dialog, the per-file result map and the routing of
    method names. The dialog, the shell items and the file system are
    inputs: what the user picked and what each COM call returned. */
module WindowsPlugin {
  import opened Ints
  import opened Wrappers
  import opened Values
  import opened MimeTypes
  import opened WindowsFilters
  import opened TempFiles

  /** The arguments of `pickFiles` after parsing. */
  datatype PickOptions = PickOptions(
    fileType: string,
    allowMultiple: bool,
    allowedExtensions: seq<string>,
    withData: bool,
    allowCompression: bool,
    compressionQuality: Int32)

  const Defaults: PickOptions := PickOptions("all", false, [], false, false, 80)

  /** `std::get_if<int>`: only a 32-bit integer counts. */
  function Int32Field(args: map<string, Value>, key: string, default: Int32): (r: Int32)
  {
    if key in args && args[key].Int32? then args[key].i else default
  }

  /** `PickFiles`: each option is read from the argument map when present
      with the right type; anything else leaves its default. */
  function ParsePickFiles(args: map<string, Value>): (r: PickOptions)
    ensures r.fileType == StringField(args, "type", Defaults.fileType)
    ensures r.allowMultiple == BoolField(args, "allowMultiple", Defaults.allowMultiple)
    ensures r.allowedExtensions == StringListField(args, "allowedExtensions")
    ensures r.withData == BoolField(args, "withData", Defaults.withData)
    ensures r.allowCompression == BoolField(args, "allowCompression", Defaults.allowCompression)
    ensures r.compressionQuality == Int32Field(args, "compressionQuality", Defaults.compressionQuality)
  {
    PickOptions(
      StringField(args, "type", "all"),
      BoolField(args, "allowMultiple", false),
      StringListField(args, "allowedExtensions"),
      BoolField(args, "withData", false),
      BoolField(args, "allowCompression", false),
      Int32Field(args, "compressionQuality", 80))
  }

  /** The argument map the Dart side sends for a set of options. */
  function ToArgs(o: PickOptions): (r: map<string, Value>)
  {
    map[
      "type" := Str(o.fileType),
      "allowMultiple" := Bool(o.allowMultiple),
      "allowedExtensions" := List(Strs(o.allowedExtensions)),
      "withData" := Bool(o.withData),
      "allowCompression" := Bool(o.allowCompression),
      "compressionQuality" := Int32(o.compressionQuality)]
  }

  /** Parsing the map built from a set of options gives the options back. */
  lemma ParseToArgs(o: PickOptions)
    ensures ParsePickFiles(ToArgs(o)) == o
  {
    var m := ToArgs(o);
    assert m["type"] == Str(o.fileType);
    assert m["allowMultiple"] == Bool(o.allowMultiple);
    assert m["allowedExtensions"] == List(Strs(o.allowedExtensions));
    assert m["withData"] == Bool(o.withData);
    assert m["allowCompression"] == Bool(o.allowCompression);
    assert m["compressionQuality"] == Int32(o.compressionQuality);
    StringsOfStrs(o.allowedExtensions);
  }

  /** An empty map gives the defaults. */
  lemma ParseEmpty()
    ensures ParsePickFiles(map[]) == Defaults
  {
  }

  /** The kind of value each option accepts. */
  predicate Accepts(key: string, v: Value) {
    if key == "type" then v.Str?
    else if key == "allowMultiple" || key == "withData" || key == "allowCompression" then v.Bool?
    else if key == "allowedExtensions" then v.List?
    else if key == "compressionQuality" then v.Int32?
    else false
  }

  /** A value of the wrong kind is the same as no value at all. */
  lemma WrongKindIsIgnored(args: map<string, Value>, key: string, v: Value)
    requires !Accepts(key, v)
    ensures ParsePickFiles(args[key := v]) == ParsePickFiles(map k | k in args && k != key :: args[k])
  {
  }

  /** Only the string entries of the extension list survive, in order: a
      list that is split in two parses to the two parts' strings. */
  lemma ExtensionsKeepOrder(args: map<string, Value>, a: seq<Value>, b: seq<Value>)
    ensures ParsePickFiles(args["allowedExtensions" := List(a + b)]).allowedExtensions
      == StringsOf(a) + StringsOf(b)
  {
    StringsOfAppend(a, b);
  }

  // ---------------------------------------------------------------------
  // The dialog

  const ForceFileSystem: bv32 := 0x40
  const AllowMultiSelect: bv32 := 0x200

  /** The options set on the dialog: the current ones plus
      `FOS_FORCEFILESYSTEM`, plus `FOS_ALLOWMULTISELECT` when several files
      may be picked. */
  function DialogFlags(current: bv32, allowMultiple: bool): (r: bv32)
    ensures r & ForceFileSystem == ForceFileSystem
    ensures allowMultiple ==> r & AllowMultiSelect == AllowMultiSelect
    ensures !allowMultiple ==> r & AllowMultiSelect == current & AllowMultiSelect
    ensures r & !(ForceFileSystem | AllowMultiSelect) == current & !(ForceFileSystem | AllowMultiSelect)
  {
    var f := current | ForceFileSystem;
    if allowMultiple then f | AllowMultiSelect else f
  }

  /** A selected shell item as the plugin sees it. `path` is `None` when
      `GetDisplayName` fails, `name` when the file name cannot be converted
      to UTF-8, `size` when `fs::file_size` throws, and `extension` when
      the path's extension cannot be converted. */
  datatype ShellItem = ShellItem(
    path: Option<string>,
    name: Option<string>,
    size: Option<UInt64>,
    extension: Option<string>)

  /** What `GetResults` and `GetCount` gave in multi-select mode: a failure
      of either, or one entry per index (`None` when `GetItemAt` failed). */
  datatype Listing = ResultsFailed | CountFailed | Listed(items: seq<Option<ShellItem>>)

  /** What the dialog returned: both views, of which the mode picks one. */
  datatype Selection = Selection(many: Listing, one: Option<ShellItem>)

  datatype Dialog = CreateFailed | Cancelled | Accepted(selection: Selection)

  /** `CompressImage` is a stub: it returns the path it was given. */
  function CompressImage(path: string, quality: Int32): (r: Option<string>)
    ensures r == Some(path)
  {
    Some(path)
  }

  /** The bytes of a file as a list of integers. */
  function ByteList(bs: seq<Byte>): (r: seq<Value>)
    ensures |r| == |bs| && forall i :: 0 <= i < |bs| ==> r[i] == Value.Int32(bs[i])
  {
    seq(|bs|, i requires 0 <= i < |bs| => Value.Int32(bs[i]))
  }

  /** The MIME type of an item: from its extension, or
      `application/octet-stream` when the extension cannot be read. */
  function ItemMimeType(extension: Option<string>): string {
    match extension
    case Some(e) => GetMimeType(e)
    case None => OctetStream
  }

  /** `ProcessFileItem`: the map describing one picked file, or `None`
      when its path, name or size cannot be had. `read` is
      `ReadFileBytes`, which yields no bytes for a file it cannot open. */
  function ProcessFileItem(item: ShellItem, withData: bool, allowCompression: bool, quality: Int32,
                           read: string -> seq<Byte>): (r: Option<Value>)
    ensures r.None? <==> item.path.None? || item.name.None? || item.size.None?
    ensures r.Some? ==> r.value.Map?
    ensures r.Some? ==> var m := r.value.entries;
      m.Keys == {"path", "name", "size", "mimeType"} + (if withData then {"bytes"} else {}) &&
      m["path"] == Str(item.path.value) && m["name"] == Str(item.name.value) &&
      m["size"] == Int64(ToInt64(item.size.value)) &&
      m["mimeType"] == Str(ItemMimeType(item.extension))
  {
    if item.path.None? || item.name.None? || item.size.None? then None
    else
      var path := item.path.value;
      var mime := ItemMimeType(item.extension);
      var base := map[
        "path" := Str(path),
        "name" := Str(item.name.value),
        "size" := Int64(ToInt64(item.size.value)),
        "mimeType" := Str(mime)];
      if withData then
        var bytes := read(path);
        var bytes' := if allowCompression && StartsWith(mime, ImagePrefix) then
          match CompressImage(path, quality)
          case Some(p) => read(p)
          case None => bytes
        else bytes;
        Some(Map(base["bytes" := List(ByteList(bytes'))]))
      else
        Some(Map(base))
  }

  /** Because `CompressImage` returns its input, compression never changes
      what is sent back: the bytes are those of the original file. */
  lemma CompressionChangesNothing(item: ShellItem, withData: bool, quality: Int32, read: string -> seq<Byte>)
    ensures ProcessFileItem(item, withData, true, quality, read) == ProcessFileItem(item, withData, false, 80, read)
    ensures withData && item.path.Some? && item.name.Some? && item.size.Some? ==>
      ProcessFileItem(item, withData, true, quality, read).value.entries["bytes"] == List(ByteList(read(item.path.value)))
  {
  }

  /** A size of 2^63 or more is sent as a negative number: the cast to
      `int64_t` keeps the bits. */
  lemma HugeSizeIsNegative(item: ShellItem, read: string -> seq<Byte>)
    requires item.path.Some? && item.name.Some? && item.size == Some(0x8000_0000_0000_0000)
    ensures ProcessFileItem(item, false, false, 80, read).value.entries["size"] == Int64(-0x8000_0000_0000_0000)
  {
  }

  /** What processing gives for one fetched item: its map, or nothing
      when `GetItemAt` failed or `ProcessFileItem` gave up. */
  function Outcome(item: Option<ShellItem>, o: PickOptions, read: string -> seq<Byte>): Option<Value> {
    match item
    case None => None
    case Some(it) => ProcessFileItem(it, o.withData, o.allowCompression, o.compressionQuality, read)
  }

  predicate Processes(item: Option<ShellItem>, o: PickOptions, read: string -> seq<Byte>) {
    Outcome(item, o, read).Some?
  }

  function Processed(item: ShellItem, o: PickOptions, read: string -> seq<Byte>): Value
    requires ProcessFileItem(item, o.withData, o.allowCompression, o.compressionQuality, read).Some?
  {
    ProcessFileItem(item, o.withData, o.allowCompression, o.compressionQuality, read).value
  }

  /** The outcome of each item, in listing order. */
  function Outcomes(items: seq<Option<ShellItem>>, o: PickOptions, read: string -> seq<Byte>): seq<Option<Value>> {
    seq(|items|, i requires 0 <= i < |items| => Outcome(items[i], o, read))
  }

  /** The loop of `ProcessSelectedFiles`: the maps of the items that
      processed, in order; failed items and items that `GetItemAt` could
      not fetch are skipped. */
  function Collect(items: seq<Option<ShellItem>>, o: PickOptions, read: string -> seq<Byte>): (r: seq<Value>)
    ensures |r| == SomeCount(Outcomes(items, o, read))
    ensures |r| == 0 <==> forall i :: 0 <= i < |items| ==> !Processes(items[i], o, read)
  {
    var outcomes := Outcomes(items, o, read);
    assert forall i :: 0 <= i < |items| ==> (outcomes[i].None? <==> !Processes(items[i], o, read));
    Somes(outcomes)
  }

  /** Item `i`, when it processes, is reported at the position given by the
      number of processing items before it. With the length above this
      fixes the whole list: the processed items' maps, in order. */
  lemma CollectPlaces(items: seq<Option<ShellItem>>, o: PickOptions, read: string -> seq<Byte>, i: int)
    requires 0 <= i < |items| && Processes(items[i], o, read)
    ensures SomeCount(Outcomes(items, o, read)[..i]) < |Collect(items, o, read)|
    ensures Collect(items, o, read)[SomeCount(Outcomes(items, o, read)[..i])] == Processed(items[i].value, o, read)
  {
    SomesPlaces(Outcomes(items, o, read), i);
  }

  /** Every item that can be processed is reported, in order, so a listing
      whose items all process yields one entry per item. */
  lemma CollectAll(items: seq<Option<ShellItem>>, o: PickOptions, read: string -> seq<Byte>)
    requires forall i :: 0 <= i < |items| ==> Processes(items[i], o, read)
    ensures |Collect(items, o, read)| == |items|
    ensures forall i :: 0 <= i < |items| ==> Collect(items, o, read)[i] == Processed(items[i].value, o, read)
  {
    SomesAll(Outcomes(items, o, read));
  }

  /** `ProcessSelectedFiles`: the list of processed items, `null` when none
      processed, or an error when `GetCount` failed. */
  function ProcessSelectedFiles(listing: Listing, o: PickOptions, read: string -> seq<Byte>): (r: Response)
    requires !listing.ResultsFailed?
    ensures listing.CountFailed? ==> r == Error("PROCESSING_ERROR", "Failed to process selected files", Null)
    ensures listing.Listed? ==> r.Success?
    ensures listing.Listed? ==>
      (r.value == Null <==> forall i :: 0 <= i < |listing.items| ==> !Processes(listing.items[i], o, read))
    ensures listing.Listed? && r.value != Null ==> r.value == List(Collect(listing.items, o, read))
  {
    match listing
    case CountFailed => Error("PROCESSING_ERROR", "Failed to process selected files", Null)
    case Listed(items) =>
      var files := Collect(items, o, read);
      if |files| > 0 then Success(List(files)) else Success(Null)
  }

  /** `ProcessSelectedFile`: a one-element list, or `null` when the item
      does not process. */
  function ProcessSelectedFile(item: ShellItem, o: PickOptions, read: string -> seq<Byte>): (r: Response)
    ensures r.Success?
    ensures r.value == Null <==>
      ProcessFileItem(item, o.withData, o.allowCompression, o.compressionQuality, read).None?
    ensures ProcessFileItem(item, o.withData, o.allowCompression, o.compressionQuality, read).Some? ==>
      r == Success(List([Processed(item, o, read)]))
  {
    match ProcessFileItem(item, o.withData, o.allowCompression, o.compressionQuality, read)
    case Some(v) => Success(List([v]))
    case None => Success(Null)
  }

  /** `ShowFilePicker` after the dialog closed. */
  function ShowFilePicker(o: PickOptions, dialog: Dialog, read: string -> seq<Byte>): (r: Response)
    ensures dialog.CreateFailed? ==> r == Error("FILE_PICKER_ERROR", "Failed to create file picker", Null)
    ensures dialog.Cancelled? ==> r == Success(Null)
    ensures dialog.Accepted? && o.allowMultiple && dialog.selection.many.ResultsFailed? ==>
      r == Error("GET_RESULTS_ERROR", "Failed to get selected files", Null)
    ensures dialog.Accepted? && !o.allowMultiple && dialog.selection.one.None? ==>
      r == Error("GET_RESULT_ERROR", "Failed to get selected file", Null)
    ensures dialog.Accepted? && o.allowMultiple && !dialog.selection.many.ResultsFailed? ==>
      r == ProcessSelectedFiles(dialog.selection.many, o, read)
    ensures dialog.Accepted? && !o.allowMultiple && dialog.selection.one.Some? ==>
      r == ProcessSelectedFile(dialog.selection.one.value, o, read)
    ensures r.Success? ==> r.value == Null || (r.value.List? && |r.value.items| > 0)
    ensures !o.allowMultiple && r.Success? && r.value.List? ==> |r.value.items| == 1
  {
    match dialog
    case CreateFailed => Error("FILE_PICKER_ERROR", "Failed to create file picker", Null)
    case Cancelled => Success(Null)
    case Accepted(sel) =>
      if o.allowMultiple then
        if sel.many.ResultsFailed? then Error("GET_RESULTS_ERROR", "Failed to get selected files", Null)
        else ProcessSelectedFiles(sel.many, o, read)
      else
        match sel.one
        case None => Error("GET_RESULT_ERROR", "Failed to get selected file", Null)
        case Some(item) => ProcessSelectedFile(item, o, read)
  }

  /** What is handed to the dialog before it is shown: the options (when
      `GetOptions` succeeded) and the filters. */
  datatype Setup = Setup(flags: Option<bv32>, filters: seq<FilterSpec>)

  /** The dialog set-up of one `pickFiles` call. `cache` is the
      function-local `static` of `CreateFileFilters`, which outlives the
      call: it is passed in and its new value is returned. */
  function DialogSetup(cache: Option<string>, o: PickOptions, current: Option<bv32>): (r: (Setup, Option<string>))
    ensures r.0.flags.Some? <==> current.Some?
    ensures r.0.flags.Some? ==> r.0.flags.value == DialogFlags(current.value, o.allowMultiple)
    ensures |r.0.filters| == 1
    ensures cache.None? ==> r.0.filters == CreateFileFilters(o.fileType, o.allowedExtensions)
    ensures cache.Some? ==> r.1 == cache
    ensures o.fileType == "custom" && |o.allowedExtensions| > 0 ==>
      r.1.Some? && r.0.filters == [FilterSpec("Custom Files", r.1.value)]
    ensures !(o.fileType == "custom" && |o.allowedExtensions| > 0) ==>
      r.0.filters == CreateFileFilters(o.fileType, o.allowedExtensions) && r.1 == cache
  {
    AsWrittenAgreesAtFirst(o.fileType, o.allowedExtensions);
    CustomIsNotFixed();
    var (filters, stored) := CreateFileFiltersAsWritten(cache, o.fileType, o.allowedExtensions);
    (Setup(match current case Some(f) => Some(DialogFlags(f, o.allowMultiple)) case None => None, filters),
     stored)
  }

  // ---------------------------------------------------------------------
  // Method routing

  /** `HandleMethodCall`. `tracked` is `temporary_files_`; `version` is
      the text `getPlatformVersion` builds from the OS version checks. */
  function HandleMethodCall(tracked: seq<string>, methodName: string, args: Value, dialog: Dialog,
                            read: string -> seq<Byte>, version: string): (r: (seq<string>, Response))
    ensures methodName == "clearTemporaryFiles" ==> r == ([], Success(Null))
    ensures methodName != "clearTemporaryFiles" ==> r.0 == tracked
    ensures methodName == "pickFiles" && !args.Map? ==>
      r.1 == Error("INVALID_ARGUMENTS", "Invalid arguments provided", Null)
    ensures methodName == "pickFiles" && args.Map? ==>
      r.1 == ShowFilePicker(ParsePickFiles(args.entries), dialog, read)
  {
    if methodName == "getPlatformVersion" then (tracked, Success(Str(version)))
    else if methodName == "pickFiles" then
      if args.Map? then (tracked, ShowFilePicker(ParsePickFiles(args.entries), dialog, read))
      else (tracked, Error("INVALID_ARGUMENTS", "Invalid arguments provided", Null))
    else if methodName == "clearTemporaryFiles" then (Cleanup(tracked).1, Success(Null))
    else (tracked, NotImplemented)
  }

  /** Only the four method names are routed: `capturePhoto`, although
      declared by the plugin, is answered "not implemented". */
  lemma OtherMethodsNotImplemented(tracked: seq<string>, methodName: string, args: Value, dialog: Dialog,
                                   read: string -> seq<Byte>, version: string)
    requires methodName !in {"getPlatformVersion", "pickFiles", "clearTemporaryFiles"}
    ensures HandleMethodCall(tracked, methodName, args, dialog, read, version) == (tracked, NotImplemented)
  {
  }

  lemma CapturePhotoNotImplemented(tracked: seq<string>, args: Value, dialog: Dialog,
                                   read: string -> seq<Byte>, version: string)
    ensures HandleMethodCall(tracked, "capturePhoto", args, dialog, read, version).1 == NotImplemented
  {
    OtherMethodsNotImplemented(tracked, "capturePhoto", args, dialog, read, version);
  }
}
