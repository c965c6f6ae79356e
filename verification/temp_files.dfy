/** Temporary-file bookkeeping: the plugin keeps the list of temporary
    paths it created and deletes them all on cleanup. Only the list is
    modelled; the files themselves and the deletes are not. */
module TempFiles {
  import opened Ints
  import opened Extensions

  /** `TEMP_DIR_PREFIX`, also the stem of the Linux temporary names. */
  const TempDirPrefix: string := "flutter_image_picker_"

  // ---------------------------------------------------------------------
  // The tracked list

  /** Creating a temporary path and recording it (`push_back`). */
  function Record(tracked: seq<string>, path: string): (r: seq<string>)
    ensures |r| == |tracked| + 1 && r[..|tracked|] == tracked && r[|tracked|] == path
  {
    tracked + [path]
  }

  /** `CleanupTempFiles` / `cleanup_temp_files`: every tracked path is
      removed, in order, and the list is cleared. The deletes themselves
      are not modelled: Windows catches and ignores a failed delete, while
      on Linux the throwing `std::filesystem::remove` would end the
      cleanup early. */
  function Cleanup(tracked: seq<string>): (r: (seq<string>, seq<string>))
    ensures r.1 == [] && multiset(r.0) == multiset(tracked) && |r.0| == |tracked|
  {
    (tracked, [])
  }

  /** One event in the life of a plugin instance. */
  datatype Event = Create(path: string) | Clean

  /** The paths created by a run of events, in order. */
  function Created(events: seq<Event>): (r: seq<string>)
    ensures |r| <= |events|
  {
    if |events| == 0 then []
    else (match events[0] case Create(p) => [p] case Clean => []) + Created(events[1..])
  }

  /** Replays `events` from the list `tracked`; `register` says whether a
      created path is recorded. The result is the final list and the paths
      removed, in order. */
  function Run(events: seq<Event>, tracked: seq<string>, register: bool): (r: (seq<string>, seq<string>))
  {
    if |events| == 0 then (tracked, [])
    else
      match events[0]
      case Create(p) => Run(events[1..], if register then Record(tracked, p) else tracked, register)
      case Clean =>
        var rest := Run(events[1..], [], register);
        (rest.0, Cleanup(tracked).0 + rest.1)
  }

  /** Nothing leaks when created paths are recorded: what was tracked plus
      what was created is exactly what was removed followed by what is
      still tracked. */
  lemma {:induction false} RecordedPathsAreRemoved(events: seq<Event>, tracked: seq<string>)
    ensures Run(events, tracked, true).1 + Run(events, tracked, true).0 == tracked + Created(events)
    decreases |events|
  {
    if |events| > 0 {
      match events[0]
      case Create(p) =>
        RecordedPathsAreRemoved(events[1..], tracked + [p]);
        assert Created(events) == [p] + Created(events[1..]);
      case Clean =>
        RecordedPathsAreRemoved(events[1..], []);
        assert Created(events) == Created(events[1..]);
    }
  }

  /** Without recording, a cleanup never removes a created path: from an
      empty list nothing is ever removed or tracked. */
  lemma {:induction false} UnrecordedPathsLeak(events: seq<Event>)
    ensures Run(events, [], false).0 == [] && Run(events, [], false).1 == []
    decreases |events|
  {
    if |events| > 0 {
      UnrecordedPathsLeak(events[1..]);
      match events[0]
      case Create(p) =>
        assert Run(events, [], false) == Run(events[1..], [], false);
      case Clean =>
        var rest := Run(events[1..], [], false);
        assert Run(events, [], false) == (rest.0, Cleanup([]).0 + rest.1);
    }
  }

  /** A cleanup as the last event always leaves the list empty. */
  lemma {:induction false} CleanupLast(events: seq<Event>, tracked: seq<string>, register: bool)
    requires |events| > 0 && events[|events| - 1] == Clean
    ensures Run(events, tracked, register).0 == []
    decreases |events|
  {
    if |events| > 1 {
      assert events[1..][|events[1..]| - 1] == Clean;
      match events[0]
      case Create(p) => CleanupLast(events[1..], if register then Record(tracked, p) else tracked, register);
      case Clean => CleanupLast(events[1..], [], register);
    }
  }

  // ---------------------------------------------------------------------
  // Windows

  /** `fs::path(a) / b` for a relative `b`: no separator is added when `a`
      is empty or already ends with one. */
  function JoinPath(dir: string, name: string): (r: string)
    ensures |r| >= |dir| + |name|
    ensures r[..|dir|] == dir && r[|r| - |name|..] == name
  {
    if |dir| == 0 || dir[|dir| - 1] == '\\' || dir[|dir| - 1] == '/' then dir + name
    else dir + "\\" + name
  }

  /** `CreateTempFilePath` (Windows): `<temp>/flutter_image_picker_/<uuid><ext>`,
      recorded for cleanup. The temporary directory and the GUID text are
      inputs. */
  function CreateTempFilePath(tracked: seq<string>, tempPath: string, uuid: string, ext: string): (r: (string, seq<string>))
    ensures r.1 == tracked + [r.0]
    ensures |r.0| >= |tempPath| && r.0[..|tempPath|] == tempPath
    ensures |r.0| >= |uuid + ext| && r.0[|r.0| - |uuid + ext|..] == uuid + ext
  {
    var path := JoinPath(JoinPath(tempPath, TempDirPrefix), uuid + ext);
    assert path[..|tempPath|] == JoinPath(tempPath, TempDirPrefix)[..|tempPath|];
    (path, Record(tracked, path))
  }

  // ---------------------------------------------------------------------
  // Linux

  /** `%d` of a non-negative number. */
  function Digits(n: nat): (r: string)
    ensures |r| > 0 && forall i :: 0 <= i < |r| ==> '0' <= r[i] <= '9'
  {
    if n < 10 then [('0' as int + n) as char]
    else Digits(n / 10) + [('0' as int + n % 10) as char]
  }

  /** `%d` of an `int`: a minus sign before the digits of a negative. */
  function Decimal(i: Int32): (r: string)
    ensures '.' !in r && '/' !in r
  {
    if i < 0 then "-" + Digits(-(i as int)) else Digits(i)
  }

  /** The name `create_temp_file_path` (Linux) prints:
      `<tmp>/flutter_image_picker_<n>.<ext>`, where `n` is the
      `g_random_int()` value, a `guint32` printed with `%d`, so the same 32
      bits read as a signed `int`. */
  function LinuxTempPath(tmpDir: string, random: UInt32, ext: string): (r: string)
    ensures '.' !in ext ==> FileExtension(r) == ext
  {
    var stem := tmpDir + "/" + TempDirPrefix + Decimal(ToInt32(random));
    if '.' !in ext then
      ExtensionOfJoin(stem, ext);
      stem + "." + ext
    else
      stem + "." + ext
  }

  /** The three parts of a Linux temporary name: the directory and the
      prefix, the signed decimal of the random number, then the dot and
      the extension. */
  lemma LinuxTempPathShape(tmpDir: string, random: UInt32, ext: string)
    ensures var r := LinuxTempPath(tmpDir, random, ext);
      var n := |tmpDir| + 1 + |TempDirPrefix|;
      tmpDir + "/" + TempDirPrefix <= r &&
      |r| == n + |Decimal(ToInt32(random))| + 1 + |ext| &&
      r[n..|r| - |ext| - 1] == Decimal(ToInt32(random)) &&
      r[|r| - |ext| - 1..] == "." + ext
  {
    var prefix := tmpDir + "/" + TempDirPrefix;
    var number := Decimal(ToInt32(random));
    ThreeParts(prefix, number, "." + ext);
    assert LinuxTempPath(tmpDir, random, ext) == prefix + number + ("." + ext);
  }

  /** Where the three parts of `a + b + c` lie. */
  lemma ThreeParts(a: string, b: string, c: string)
    ensures var r := a + b + c;
      |r| == |a| + |b| + |c| && a <= r && r[|a|..|a| + |b|] == b && r[|a| + |b|..] == c
  {
    var r := a + b + c;
    assert r[..|a|] == a;
    assert r[|a|..|a| + |b|] == b;
  }

  /** `create_temp_file_path` as written: the path is made but the list is
      left as it was, so no later cleanup removes the file. */
  function LinuxCreateAsWritten(tracked: seq<string>, tmpDir: string, random: UInt32, ext: string): (r: (string, seq<string>))
    ensures r.1 == tracked
    ensures '.' !in ext ==> FileExtension(r.0) == ext
  {
    (LinuxTempPath(tmpDir, random, ext), tracked)
  }

  /** The same with the path recorded, as the plugin's `temporary_files`
      list and its cleanup on dispose evidently intend. */
  function LinuxCreate(tracked: seq<string>, tmpDir: string, random: UInt32, ext: string): (r: (string, seq<string>))
    ensures r.1 == tracked + [r.0]
    ensures '.' !in ext ==> FileExtension(r.0) == ext
  {
    var path := LinuxTempPath(tmpDir, random, ext);
    (path, Record(tracked, path))
  }

  /** A compressed temporary file is created, then the plugin is disposed:
      as written the cleanup removes nothing and the file stays behind;
      with the path recorded it is removed. */
  lemma LinuxTempFileLeaks(tmpDir: string, random: UInt32)
    ensures var path := LinuxCreateAsWritten([], tmpDir, random, "jpg").0;
      Run([Create(path), Clean], [], false).1 == []
    ensures var path := LinuxCreate([], tmpDir, random, "jpg").0;
      Run([Create(path), Clean], [], true).1 == [path]
  {
    var path := LinuxTempPath(tmpDir, random, "jpg");
    var events := [Create(path), Clean];
    UnrecordedPathsLeak(events);
    RecordedPathsAreRemoved(events, []);
    CleanupLast(events, [], true);
    assert events[1..] == [Clean] && [Clean][1..] == [];
    assert Created(events) == [path];
  }

  /** Every Linux temporary path names a JPEG image. */
  lemma LinuxTempPathIsImage(tmpDir: string, random: UInt32)
    ensures IsImageFile(LinuxTempPath(tmpDir, random, "jpg"))
  {
    var path := LinuxTempPath(tmpDir, random, "jpg");
    assert '.' !in "jpg";
    assert FileExtension(path) == "jpg";
    Ascii.ToLowerIs("jpg", "jpg");
    assert "jpg" in LinuxImageExtensions;
  }
}
