/** File extensions and the image test of both desktop plugins. Linux cuts
    the extension itself at the last dot of the path and compares it without
    a dot; Windows receives the extension from the path library, dot
    included. */
module Extensions {
  import opened Wrappers
  import opened Ascii

  /** Position of the last `.` in `p`, like `find_last_of('.')`, with `None`
      for `npos`. */
  function LastDot(p: string): (r: Option<nat>)
    ensures r.None? <==> '.' !in p
    ensures r.Some? ==> r.value < |p| && p[r.value] == '.' && '.' !in p[r.value + 1..]
  {
    if |p| == 0 then None
    else if p[|p| - 1] == '.' then Some(|p| - 1)
    else
      var r := LastDot(p[..|p| - 1]);
      assert r.Some? ==> p[r.value + 1..] == p[..|p| - 1][r.value + 1..] + [p[|p| - 1]];
      assert p == p[..|p| - 1] + [p[|p| - 1]];
      r
  }

  /** `get_file_extension` (Linux): everything after the last `.` of the
      whole path, or the empty string when there is no `.`. */
  function FileExtension(p: string): (r: string)
    ensures '.' !in r
    ensures '.' !in p ==> r == []
    ensures '.' in p ==> |r| < |p| && p == p[..|p| - |r| - 1] + "." + r
  {
    match LastDot(p)
    case None => []
    case Some(i) =>
      assert p == p[..i] + "." + p[i + 1..];
      p[i + 1..]
  }

  /** Appending a dot and a dot-free suffix makes that suffix the
      extension, whatever the stem. */
  lemma ExtensionOfJoin(stem: string, e: string)
    requires '.' !in e
    ensures FileExtension(stem + "." + e) == e
  {
    var p := stem + "." + e;
    var r := FileExtension(p);
    assert p[|stem|] == '.';
  }

  /** The cut is made in the whole path, not in its last component: a dot
      in a directory name yields an extension that holds a `/`. */
  lemma ExtensionSpansDirectories()
    ensures FileExtension("/a.b/c") == "b/c"
  {
    assert "/a" + "." + "b/c" == "/a.b/c";
    ExtensionOfJoin("/a", "b/c");
  }

  /** The extensions `is_image_file` accepts (Linux), lowered, dot-free. */
  const LinuxImageExtensions: set<string> :=
    {"jpg", "jpeg", "png", "gif", "bmp", "webp", "tiff", "tif"}

  /** The extensions `IsImageFile` accepts (Windows), lowered, dotted. */
  const WindowsImageExtensions: set<string> :=
    {".jpg", ".jpeg", ".png", ".gif", ".bmp", ".tiff", ".webp"}

  /** `is_image_file` (Linux). */
  predicate IsImageFile(p: string) {
    ToLower(FileExtension(p)) in LinuxImageExtensions
  }

  /** `IsImageFile` (Windows) once the path library has produced the
      extension `ext`. */
  predicate IsImageExtension(ext: string) {
    ToLower(ext) in WindowsImageExtensions
  }

  /** A Linux path is an image exactly when the suffix after its last dot,
      lowered, is one of the eight image extensions. */
  lemma IsImageFileOfJoin(stem: string, e: string)
    requires '.' !in e
    ensures IsImageFile(stem + "." + e) <==> ToLower(e) in LinuxImageExtensions
  {
    ExtensionOfJoin(stem, e);
  }

  /** A path without a dot is never an image on Linux. */
  lemma DotlessIsNotImage(p: string)
    requires '.' !in p
    ensures !IsImageFile(p)
  {
    assert FileExtension(p) == [];
    assert ToLower([]) == [];
  }

  /** A Linux path ending in `.JPG` is an image: the test ignores case. */
  lemma UpperCaseJpgIsImage(stem: string)
    ensures IsImageFile(stem + "." + "JPG")
  {
    IsImageFileOfJoin(stem, "JPG");
    ToLowerIs("JPG", "jpg");
  }

  /** The Windows test ignores case too. */
  lemma MixedCaseWebpIsImage()
    ensures IsImageExtension(".WebP")
  {
    ToLowerIs(".WebP", ".webp");
  }

  /** The platforms disagree on TIFF files named `.tif`: Linux accepts
      them, Windows does not. */
  lemma TifOnlyOnLinux(stem: string)
    ensures IsImageFile(stem + "." + "tif")
    ensures !IsImageExtension(".tif")
  {
    IsImageFileOfJoin(stem, "tif");
    ToLowerIs("tif", "tif");
    NotWindowsTif();
  }

  lemma NotWindowsTif()
    ensures !IsImageExtension(".tif")
  {
    ToLowerIs(".tif", ".tif");
    assert ".tif" !in WindowsImageExtensions;
  }

  /** Windows compares dotted extensions, so the dot-free spelling of
      Linux is never a Windows image. */
  lemma DotlessIsNotWindowsImage(ext: string)
    requires '.' !in ext
    ensures !IsImageExtension(ext)
  {
  }

  /** Every Windows image extension is a dot followed by a Linux image
      extension. */
  lemma WindowsImagesAreLinuxImages(ext: string)
    requires ext in WindowsImageExtensions
    ensures |ext| > 0 && ext[0] == '.' && ext[1..] in LinuxImageExtensions
  {
  }
}
