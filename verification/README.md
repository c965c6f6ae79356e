# image_picker_master desktop plugins in Dafny

This project models the native side of the `image_picker_master` Flutter
plugin on its two desktop platforms: the Windows plugin class
(`windows/image_picker_master_plugin.cpp`) and the Linux GObject plugin
(`linux/image_picker_master_plugin.cc`). Both answer method calls from the
Dart side. `getPlatformVersion` returns a version string. `pickFiles`
opens the platform's file dialog, filters it by a file-type tag or by
extensions, and replies with one map per chosen file (path, name, size,
MIME type or extension, and optionally the file's bytes, possibly
recompressed). On Windows, `clearTemporaryFiles` deletes the temporary
files the plugin tracks. On Linux, `capturePhoto` always fails.

The model is built from immutable values and pure functions:

- `Values` is the message codec's value type (null, booleans, 32- and
  64-bit integers, strings, lists, string-keyed maps) and the reply type
  (success, error with code/message/details, not implemented).
- `WindowsPlugin` and `LinuxPlugin` model argument parsing, dialog
  set-up, per-file processing, the pick reply and method routing.
- The dialog outcome, the file system and the OS are inputs.
  - `Dialog`/`Listing` on Windows and `Outcome`/`Chosen` on Linux say
    what the dialog returned and which shell or file-system calls failed.
  - A `read` function parameter stands for reading a file.
  - Random numbers, GUIDs and the version text are parameters.
- `WindowsFilters` and `LinuxPlugin.Filter` hold the dialog filters per
  file type. `Patterns` is the `;`-joined Windows pattern list and its
  inverse split.
- `MimeTypes` is the Windows extension-to-MIME table. It is looked up
  after lower-casing, with `application/octet-stream` as the fallback.
- `Extensions` holds the two image tests and the Linux extension
  function (the text after the last `.` of the whole path).
- `Guid` is the text form `GenerateUUID` prints: `%08X-%04X-%04X-` and
  then eight two-digit bytes. It comes with its parser and both round
  trips.
- `TempFiles` is the temporary-file list, its cleanup, and the two
  temporary path builders.
- `Base64` is standard base 64 (section 4 of RFC 4648) with a decoder.
  It is what `g_base64_encode` produces on Linux.
- `WindowsBase64` is the Windows hand-written bit-buffer encoder
  (`ReadFileAsBase64`), written as loops and proved equal to `Base64`.
  - `int val` is 32 bits and is shifted left without masking, so from
    the fourth octet on it overflows, and it can become negative.
  - Before C++20, shifting a negative `int` left, or shifting a bit out
    of the sign position, is undefined behaviour. The model assumes the
    two's-complement wrap-around that C++20 defines and MSVC produces.
  - Under that assumption the model keeps the 32-bit pattern of `val`.
    The encoder reads only the low bits, which wrap-around leaves
    unchanged, and this is proved.

Where the two platforms differ, each is modelled as its code does it:

- **Defaults.** Windows uses type `all`, compression off and quality 80.
  Linux uses type `any`, compression on and quality 85.
- **Quality type.** Windows accepts only a 32-bit integer quality. Linux
  accepts the codec's 64-bit integer and keeps the low 32 bits on
  conversion to `int` (`LinuxPlugin.QualityIsTruncated`).
- **Size failure.** Windows drops a file whose size cannot be read.
  Linux reports size 0.
- **Failed read.** On Windows a failed read gives an empty byte list,
  because `ReadFileBytes` does not throw. On Linux it gives `bytes: null`.
- **Compression.** Windows "compression" returns the original path.
  Linux compresses to a temporary `.jpg` and reads that file when the
  compression succeeds.
- **Routing.** Windows does not route `capturePhoto`, and Linux does not
  route `clearTemporaryFiles`; both answer "not implemented".
- **Custom filter.** The Windows custom filter needs the tag `custom`.
  Linux uses the allowed extensions for any tag that is not one of the
  four fixed ones.

The plugin's code behaves as follows in these easily misread places:

- A failed size lookup yields size 0 only on Linux.
- A failed read does not omit the `bytes` entry on either platform.
- Non-map arguments to `pickFiles` are an error on both platforms, not
  "defaults apply".
- `ReadFileAsBase64` is never called by the Windows plugin: it sends
  bytes as an integer list. It is modelled because it is the plugin's
  only non-trivial algorithm.
- `CreateTempFilePath` is never called on Windows either, so the Windows
  temporary-file list stays empty in practice. It is modelled for the
  cleanup properties.
- The Windows `IsImageFile` and `GetFileExtension` are never called
  either: the Windows compression test is the `image/` prefix of the MIME
  type. The `Extensions` and `MimeTypes` rows about the Windows image
  test describe this unreachable code.

## Model

| member | source | states |
|---|---|---|
| Ints.ToInt64 | windows/image_picker_master_plugin.cpp:366 | the `static_cast<int64_t>` of an unsigned size is congruent to it modulo 2^64, equal to it below 2^63, and negative from 2^63 on |
| Ints.ToInt32 | linux/image_picker_master_plugin.cc:127-130 | storing a 64-bit codec integer in an `int` keeps its value modulo 2^32, and keeps it exactly when it fits |
| Ascii.ToLower | windows/image_picker_master_plugin.cpp:507-508 | `::tolower` applied per character: same length, each upper-case ASCII letter moved down by 32, everything else unchanged |
| Ascii.ToLowerIdempotent | windows/image_picker_master_plugin.cpp:507-508 | lower-casing twice is lower-casing once |
| Ascii.ToLowerIgnoresCase | linux/image_picker_master_plugin.cc:318 | texts that differ only in letter case lower-case to the same text |
| Values.StringsOfStrs | windows/image_picker_master_plugin.cpp:122-131 | keeping the string items of a list made of strings gives the strings back, in order |
| Values.StringsOfAppend | linux/image_picker_master_plugin.cc:106-115 | keeping the string items distributes over concatenation, so the order of the extensions is kept |
| Values.StringsOfNone | windows/image_picker_master_plugin.cpp:125-128 | a list with no string item contributes no extension |
| Extensions.FileExtension | linux/image_picker_master_plugin.cc:325-331 | the result has no dot; it is empty for a dot-free path; otherwise the path is some prefix, a dot, then the result |
| Extensions.ExtensionOfJoin | linux/image_picker_master_plugin.cc:325-331 | inverse of building `stem.ext`: any stem followed by `.` and a dot-free extension gives that extension back |
| Extensions.ExtensionSpansDirectories | linux/image_picker_master_plugin.cc:326 | the last dot of the whole path is used, so `/a.b/c` has extension `b/c` |
| Extensions.IsImageFileOfJoin | linux/image_picker_master_plugin.cc:316-323 | `stem.e` is an image exactly when the lower-cased `e` is one of the eight Linux image extensions |
| Extensions.DotlessIsNotImage | linux/image_picker_master_plugin.cc:316-331 | a path without a dot is never an image |
| Extensions.UpperCaseJpgIsImage | linux/image_picker_master_plugin.cc:318 | the test ignores case: `x.JPG` is an image |
| Extensions.MixedCaseWebpIsImage | windows/image_picker_master_plugin.cpp:537-543 | the Windows test ignores case: `.WebP` is an image extension |
| Extensions.TifOnlyOnLinux | linux/image_picker_master_plugin.cc:320-322 | `tif` is an image on Linux while `.tif` is not on Windows (lines 540-541 of the Windows file) |
| Extensions.DotlessIsNotWindowsImage | windows/image_picker_master_plugin.cpp:540-541 | every Windows image extension starts with a dot, so a dot-free extension is never one |
| Extensions.WindowsImagesAreLinuxImages | windows/image_picker_master_plugin.cpp:540-541 | each Windows image extension, without its dot, is also a Linux image extension |
| MimeTypes.GetMimeType | windows/image_picker_master_plugin.cpp:444-512 | the result is the table's entry for the lower-cased extension, or `application/octet-stream` |
| MimeTypes.MimeTypeLookup | windows/image_picker_master_plugin.cpp:506-511 | both directions: a key missing from the table gives `application/octet-stream`, and a present key gives its entry |
| MimeTypes.MimeTypeIgnoresCase | windows/image_picker_master_plugin.cpp:506-511 | extensions that lower-case alike get the same MIME type |
| MimeTypes.MimeTypeOfLowered | windows/image_picker_master_plugin.cpp:506-511 | lower-casing the extension first changes nothing |
| MimeTypes.JpegInAnyCase | windows/image_picker_master_plugin.cpp:447 | `.jpg` and `.JPG` both map to `image/jpeg` |
| MimeTypes.KeysAreDotted | windows/image_picker_master_plugin.cpp:445-505 | every key of the table starts with a dot |
| MimeTypes.DotlessIsOctetStream | windows/image_picker_master_plugin.cpp:444-512 | so an extension without a dot always falls back to `application/octet-stream` |
| MimeTypes.ImageExtensionsHaveImageTypes | windows/image_picker_master_plugin.cpp:374 | every extension `IsImageFile` accepts maps to an `image/` type, so it passes the compression test of line 374 |
| MimeTypes.SvgIsImageTypeOnly | windows/image_picker_master_plugin.cpp:374 | the converse fails: `.svg` has an `image/` type but is not an image extension |
| Guid.Format | windows/image_picker_master_plugin.cpp:514-524 | the printed GUID is 36 characters of upper-case hex digits with hyphens at 8, 13, 18 and 23 |
| Guid.ParseOfFormat | windows/image_picker_master_plugin.cpp:519-522 | parsing the printed GUID gives back the GUID, so distinct GUIDs print distinct names |
| Guid.ParseAcceptsWellFormed | windows/image_picker_master_plugin.cpp:519 | the parser accepts exactly the texts of that shape |
| Guid.FormatOfParse | windows/image_picker_master_plugin.cpp:519 | every text of that shape is the print of the GUID it parses to |
| Guid.ParseHexOfHex | windows/image_picker_master_plugin.cpp:519 | `%0NX` round trip: reading back `N` hex digits gives the number |
| Guid.HexOfParseHex | windows/image_picker_master_plugin.cpp:519 | and printing the number read from `N` hex digits gives the digits back |
| Guid.ParseBytesOfHexBytes | windows/image_picker_master_plugin.cpp:519-521 | `%02X` per byte round trip |
| TempFiles.Cleanup | windows/image_picker_master_plugin.cpp:526-535 | the list is left empty, and the removed paths are exactly the tracked ones |
| TempFiles.CreateTempFilePath | windows/image_picker_master_plugin.cpp:396-411 | the new path starts with the temporary directory, ends with GUID + extension, and is appended to the tracked list |
| TempFiles.RecordedPathsAreRemoved | windows/image_picker_master_plugin.cpp:407-408 | when every created path is recorded, the paths removed by cleanups plus those still tracked are exactly the tracked and created ones, in order |
| TempFiles.CleanupLast | windows/image_picker_master_plugin.cpp:526-535 | after a cleanup nothing is tracked, whatever came before |
| TempFiles.LinuxTempPath | linux/image_picker_master_plugin.cc:325-340 | the extension of the temporary name reads back as `ext` |
| TempFiles.LinuxTempPathShape | linux/image_picker_master_plugin.cc:335-336 | the name is `<tmp>/flutter_image_picker_`, then the random number printed as a signed `int`, then `.` and the extension |
| TempFiles.LinuxCreateAsWritten | linux/image_picker_master_plugin.cc:333-340 | as written: the path is built but the plugin's list is unchanged |
| TempFiles.LinuxCreate | linux/image_picker_master_plugin.cc:333-340 | corrected: the path is also appended to the list |
| TempFiles.UnrecordedPathsLeak | linux/image_picker_master_plugin.cc:370-377 | when creations are not recorded, no sequence of creations and cleanups ever removes a path |
| TempFiles.LinuxTempFileLeaks | linux/image_picker_master_plugin.cc:333-340 | a created `.jpg` temporary is missing from the list as written and present in the corrected one |
| TempFiles.LinuxTempPathIsImage | linux/image_picker_master_plugin.cc:262 | the compressed copy is itself an image file by the Linux test |
| Patterns.SplitJoin | windows/image_picker_master_plugin.cpp:246-251 | splitting the `;`-joined patterns at `;` gives the patterns back |
| Patterns.JoinSplit | windows/image_picker_master_plugin.cpp:246-251 | joining the pieces of a split gives the text back |
| WindowsFilters.CreateFileFilters | windows/image_picker_master_plugin.cpp:222-264 | exactly one filter: the fixed one for `image`/`video`/`audio`/`document`, the custom list for `custom` with extensions, `All Files`/`*.*` otherwise (static cache corrected) |
| WindowsFilters.CustomSpecLists | windows/image_picker_master_plugin.cpp:243-251 | the corrected custom filter lists `*.e` for each allowed extension, in order |
| WindowsFilters.ImageFilterMatchesImageTest | windows/image_picker_master_plugin.cpp:228 | the image filter names exactly the extensions `IsImageFile` accepts (lines 540-541) |
| WindowsFilters.CreateFileFiltersAsWritten | windows/image_picker_master_plugin.cpp:225-262 | as written: once the function-local static is set, it never changes and is the custom filter's pattern; any other call returns its fixed or `*.*` filter and leaves the static as it was |
| WindowsFilters.AsWrittenAgreesAtFirst | windows/image_picker_master_plugin.cpp:254 | before the static is set, as-written and corrected filters agree |
| WindowsFilters.CustomPatternIsFrozen | windows/image_picker_master_plugin.cpp:254-255 | every later custom filter repeats the first call's pattern |
| WindowsFilters.FrozenPatternExample | windows/image_picker_master_plugin.cpp:243-255 | after `custom` with `png`, a call with `pdf` still filters `*.png`; the corrected version gives `*.pdf` |
| WindowsPlugin.ParsePickFiles | windows/image_picker_master_plugin.cpp:97-152 | each option is taken from the map when present with the right type, and otherwise keeps its default |
| WindowsPlugin.ParseToArgs | windows/image_picker_master_plugin.cpp:108-152 | parsing the map the Dart side builds from a set of options gives the options back |
| WindowsPlugin.ParseEmpty | windows/image_picker_master_plugin.cpp:101-106 | an empty map gives `all`, single, no extensions, no data, no compression, 80 |
| WindowsPlugin.WrongKindIsIgnored | windows/image_picker_master_plugin.cpp:108-152 | a value of the wrong kind under a key is the same as the key being absent |
| WindowsPlugin.ExtensionsKeepOrder | windows/image_picker_master_plugin.cpp:122-131 | the extensions of `a + b` are those of `a` then those of `b` |
| WindowsPlugin.DialogFlags | windows/image_picker_master_plugin.cpp:173-181 | `FOS_FORCEFILESYSTEM` is set, `FOS_ALLOWMULTISELECT` is set when multiple selection is asked for, and all other bits are kept |
| WindowsPlugin.DialogSetup | windows/image_picker_master_plugin.cpp:171-187 | options are set only when they could be read; exactly one filter is installed; the first call filters as the corrected `CreateFileFilters`, a `custom` call with extensions installs the cached `static` pattern, which a set cache keeps; any other call installs the corrected filter and leaves the cache unchanged |
| WindowsPlugin.ProcessFileItem | windows/image_picker_master_plugin.cpp:315-394 | no map iff path, name or size is unavailable; otherwise exactly path/name/size/mimeType (and bytes when data is asked for), size as a signed 64-bit value |
| WindowsPlugin.CompressionChangesNothing | windows/image_picker_master_plugin.cpp:431-442 | since compression returns the original path, the reply is the same with compression on or off |
| WindowsPlugin.HugeSizeIsNegative | windows/image_picker_master_plugin.cpp:366 | a size of 2^63 bytes is reported as -2^63 |
| WindowsPlugin.Collect | windows/image_picker_master_plugin.cpp:277-287 | the list is as long as the number of items that process, and empty exactly when none does |
| WindowsPlugin.CollectPlaces | windows/image_picker_master_plugin.cpp:277-287 | an item that processes contributes its map at the position counting the processing items before it, so the list is the processed maps in listing order |
| WindowsPlugin.CollectAll | windows/image_picker_master_plugin.cpp:277-287 | when every item processes, the list has one entry per item, in order, each that item's map |
| WindowsPlugin.ProcessSelectedFiles | windows/image_picker_master_plugin.cpp:266-297 | `GetCount` failure gives `PROCESSING_ERROR`; otherwise `null` exactly when no item processes, and else the list of processed maps |
| WindowsPlugin.ProcessSelectedFile | windows/image_picker_master_plugin.cpp:299-313 | always a success, `null` exactly when the item does not process, and otherwise the one-element list of its map |
| WindowsPlugin.ShowFilePicker | windows/image_picker_master_plugin.cpp:159-220 | the error codes and messages of each failure, `null` on cancel, and on an accepted pick the reply of `ProcessSelectedFiles` or `ProcessSelectedFile` |
| WindowsPlugin.HandleMethodCall | windows/image_picker_master_plugin.cpp:65-95 | `pickFiles` with non-map arguments gives `INVALID_ARGUMENTS`; `clearTemporaryFiles` empties the list; no other call touches it |
| WindowsPlugin.OtherMethodsNotImplemented | windows/image_picker_master_plugin.cpp:92-94 | any other method name is answered "not implemented" and changes nothing |
| WindowsPlugin.CapturePhotoNotImplemented | windows/image_picker_master_plugin.cpp:65-95 | `capturePhoto` is not routed on Windows |
| Base64.DecodeEncode | linux/image_picker_master_plugin.cc:293-298 | the encoding decodes back to the octets, so no two inputs share an encoding |
| Base64.EncodeLength | linux/image_picker_master_plugin.cc:293-298 | the encoding is `4⌈n/3⌉` characters long |
| Base64.EncodeShape | linux/image_picker_master_plugin.cc:293-298 | alphabet characters followed by exactly the pads the length needs, at most two |
| Base64.EncodeAppend | linux/image_picker_master_plugin.cc:293-298 | whole groups are encoded independently of what follows |
| Base64.GroupIsFourSlices | linux/image_picker_master_plugin.cc:293-298 | the four values of a group are the four 6-bit slices of its 24-bit number |
| WindowsBase64.ReadFileAsBase64 | windows/image_picker_master_plugin.cpp:562-590 | no value exactly when the read is empty, otherwise the standard base 64 encoding of the bytes |
| WindowsBase64.ShiftAll | windows/image_picker_master_plugin.cpp:576-584 | after the loop, `⌊8n/6⌋` characters are out, spelling the values of all whole groups and the finished part of the last, with at most five bits waiting |
| WindowsBase64.Drain | windows/image_picker_master_plugin.cpp:580-583 | the inner loop emits the six-bit slices at `valb`, `valb-6`, … and stops at the counter in `[-6, 0)` |
| WindowsBase64.Step | windows/image_picker_master_plugin.cpp:577-584 | one octet keeps the loop invariant, whatever its position in its group, although the 32-bit buffer wraps |
| WindowsBase64.Finish | windows/image_picker_master_plugin.cpp:586 | the final push completes the values of a one- or two-octet tail with zero bits |
| WindowsBase64.PadToQuantum | windows/image_picker_master_plugin.cpp:587 | the pad loop adds exactly the pads standard base 64 needs |
| LinuxPlugin.ParseArgs | linux/image_picker_master_plugin.cc:84-131 | non-map arguments are rejected; otherwise each option is taken when of the right type, or keeps its default |
| LinuxPlugin.ParseToArgs | linux/image_picker_master_plugin.cc:90-131 | parsing the map the Dart side builds from a set of options gives the options back |
| LinuxPlugin.ParseEmpty | linux/image_picker_master_plugin.cc:97-131 | an empty map gives `any`, single, no extensions, no data, compression on, 85 |
| LinuxPlugin.QualityIsTruncated | linux/image_picker_master_plugin.cc:127-130 | a 64-bit quality of 2^32 + 50 becomes 50 |
| LinuxPlugin.WrongKindIsIgnored | linux/image_picker_master_plugin.cc:97-131 | a value of the wrong kind under a key is the same as the key being absent |
| LinuxPlugin.ExtensionsKeepOrder | linux/image_picker_master_plugin.cc:106-115 | the extensions of `a + b` are those of `a` then those of `b` |
| LinuxPlugin.Filter | linux/image_picker_master_plugin.cc:145-224 | the MIME filters for image/video/audio, the 43 document patterns, the allowed extensions for any other tag, and no filter when that list is empty |
| LinuxPlugin.CustomIsNotSpecial | linux/image_picker_master_plugin.cc:216-224 | `custom` and any unknown tag both use the allowed extensions |
| LinuxPlugin.FixedTagsIgnoreExtensions | linux/image_picker_master_plugin.cc:145-215 | the four fixed tags ignore the allowed extensions |
| LinuxPlugin.DocumentsAreWindowsPlusBz2 | linux/image_picker_master_plugin.cc:160-215 | as sets, the Linux document patterns are the Windows patterns plus `bz2` |
| LinuxPlugin.Describe | linux/image_picker_master_plugin.cc:232-279 | a file's map: the path, name, size (0 when unreadable) and extension entries, plus `bytes` exactly when data is asked for, holding the base 64 text of the final file or `null`; one temporary path exactly when compression is attempted |
| LinuxPlugin.DescribeData | linux/image_picker_master_plugin.cc:260-276 | the map's keys; the bytes are the base 64 text of the compressed copy when compression succeeded, else of the original, and `null` when unreadable |
| LinuxPlugin.NoCompressionCases | linux/image_picker_master_plugin.cc:261 | no compression for quality 100 or more, non-images, or compression off |
| LinuxPlugin.CreatedPathsAreCopies | linux/image_picker_master_plugin.cc:232-280 | every temporary path a pick creates is the compressed copy of one chosen file |
| LinuxPlugin.CopiesAreCreated | linux/image_picker_master_plugin.cc:232-280 | and every file for which compression is attempted gets one |
| LinuxPlugin.DescribeAll | linux/image_picker_master_plugin.cc:232-280 | one map per chosen file, in order |
| LinuxPlugin.HandlePickFiles | linux/image_picker_master_plugin.cc:84-290 | non-map arguments give `invalid_arguments`; cancel gives `null`; acceptance gives the list of `DescribeAll` maps, one per file in order, and the created temporary paths |
| LinuxPlugin.ErrorResponse | linux/image_picker_master_plugin.cc:379-385 | the error's details map repeats its code and message |
| LinuxPlugin.HandleCapturePhoto | linux/image_picker_master_plugin.cc:387-394 | always `CAMERA_NOT_SUPPORTED` with the fixed message |
| LinuxPlugin.CleanupList | linux/image_picker_master_plugin.cc:370-377 | an existing list is emptied; a deleted one stays deleted |
| LinuxPlugin.Dispose | linux/image_picker_master_plugin.cc:396-407 | the cleanup removes every tracked path, and afterwards there is no list |
| LinuxPlugin.HandleMethodCallAsWritten | linux/image_picker_master_plugin.cc:55-74 | as written no call changes the plugin's list; `getPlatformVersion` answers `Linux ` and the version, and `pickFiles` answers with the reply of `handle_pick_files` |
| LinuxPlugin.HandleMethodCall | linux/image_picker_master_plugin.cc:55-74 | corrected: same replies, and a pick appends the temporary paths it created |
| LinuxPlugin.Routing | linux/image_picker_master_plugin.cc:64-71 | `capturePhoto` fails with `CAMERA_NOT_SUPPORTED`; other names, `clearTemporaryFiles` included, are not implemented |
| LinuxPlugin.CompressedCopyLeaks | linux/image_picker_master_plugin.cc:261-266 | after a pick that compresses an image the list is still empty as written, and holds the copy when corrected |
| LinuxPlugin.DefaultsCompressImages | linux/image_picker_master_plugin.cc:125-128 | with default options every image is compressed |

## Left out

- The Swift (iOS, macOS) and Kotlin (Android) plugins, including the
  camera capture pipeline, are not part of this model.
- COM and GTK plumbing is not modelled: dialog creation, `Show`,
  `GetResults`, `gtk_dialog_run`, and releasing and freeing objects. The
  dialog's result and each call's failure are inputs.
- Image codecs are not modelled: GDI+ `ConvertToJpeg` and
  `GetImageEncoder` on Windows, the gdk-pixbuf `compress_image` on Linux.
  The Linux compression result is an input (`Chosen.compressed`), and
  neither platform's JPEG encoding is modelled.
- File I/O is a function parameter. `ReadFileBytes`, `read_file_bytes`,
  `fs::file_size` and `fs::remove` are not modelled; which paths a
  cleanup removes is modelled.
- UTF-8/UTF-16 conversions are not modelled. Strings are character
  sequences, and a conversion failure shows up only as a missing name in
  `ShellItem`.
- `fs::path` semantics are inputs. `filename()` and `extension()` are
  given in `ShellItem`/`Chosen`, and the Windows path join is simplified
  to one separator rule (`TempFiles.JoinPath`).
- These values are parameters: `GetTempPathW`, `g_get_tmp_dir`,
  `g_random_int`, `CoCreateGuid` (whose failure the code ignores) and the
  OS version text of `getPlatformVersion`.
- `SendError` and the plugin registration and constructor code are not
  modelled, and neither is the Windows destructor's cleanup, which is the
  same list cleanup as `clearTemporaryFiles`.
- Codec values other than the ones the plugins read are one `Other`
  case, and map keys are strings only.
- LinuxPlugin.HandlePickFiles: the reply is the intended list of maps.
  As written, each `file_map` is a `g_autoptr` that is released at the
  end of its loop iteration, after `fl_value_append_take` took it
  (lines 237 and 278 of the Linux file). So the list sent back refers to
  freed maps. Memory ownership is not modelled.
- TempFiles.Cleanup: the files are not deleted. The function returns the
  list of paths it would remove, and errors from `fs::remove` are not
  modelled.

## Findings

| source | as written | input that shows it | evidently intended | confidence | as-written member | corrected member |
|---|---|---|---|---|---|---|
| windows/image_picker_master_plugin.cpp:254 | the custom filter text is kept in a function-local `static`, initialised only on the first call | `pickFiles` with `custom` and `["png"]`, then with `custom` and `["pdf"]`: the second dialog still filters `*.png` | each call filters by its own extensions | high (not executed) | WindowsFilters.FrozenPatternExample | WindowsFilters.CustomSpecLists |
| linux/image_picker_master_plugin.cc:261-266 | `create_temp_file_path` never adds the path to `temporary_files`, and `handle_pick_files` has no access to the plugin | `pickFiles` with defaults choosing `a.png`, then `dispose`: the list is empty, so the compressed copy is never deleted | compressed copies are recorded and removed by cleanup/dispose | high (not executed) | LinuxPlugin.CompressedCopyLeaks | LinuxPlugin.HandleMethodCall |
