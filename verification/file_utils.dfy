/** `file_utils` of the layout detector: which input files are accepted, by their
    suffix, and how the output image of each page is named. A path is modelled
    by its final component, the name `Path.suffix` looks at. */
module FileUtils {
  import opened Wrappers
  import opened Text
  import opened Seqs

  /** The image suffixes accepted besides `.pdf`. */
  const SupportedImageExts: set<string> := {".png", ".jpg", ".jpeg", ".tif", ".tiff", ".bmp"}

  /** The index of the last `.` in `name`, or -1 (`str.rfind`). */
  function LastDot(name: string): (r: int)
    ensures -1 <= r < |name|
    ensures r >= 0 ==> name[r] == '.'
    ensures forall k :: r < k < |name| ==> name[k] != '.'
  {
    if name == [] then -1
    else if name[|name| - 1] == '.' then |name| - 1
    else LastDot(name[..|name| - 1])
  }

  /** `Path.suffix`: from the last dot to the end, provided that dot is neither
      the first nor the last character; otherwise empty. */
  function Suffix(name: string): (r: string)
    ensures r == "" || (2 <= |r| < |name| && r[0] == '.' && r == name[|name| - |r|..])
    ensures forall k :: 0 < k < |r| ==> r[k] != '.'
  {
    var i := LastDot(name);
    if 0 < i < |name| - 1 then name[i..] else ""
  }

  /** `is_supported_file`: the lower-cased suffix is `.pdf` or an image suffix. */
  predicate IsSupportedFile(name: string) {
    var suffix := Lower(Suffix(name));
    suffix == ".pdf" || suffix in SupportedImageExts
  }

  /** A well-formed extension: a dot followed by at least one character and no
      further dot. */
  predicate IsExtension(ext: string) {
    |ext| >= 2 && ext[0] == '.' && forall k :: 0 < k < |ext| ==> ext[k] != '.'
  }

  /** Characters without a dot do not move the last dot. */
  lemma {:induction false} LastDotAppend(s: string, t: string)
    requires forall k :: 0 <= k < |t| ==> t[k] != '.'
    ensures LastDot(s + t) == LastDot(s)
    decreases |t|
  {
    if t == [] {
      assert s + t == s;
    } else {
      var t' := t[..|t| - 1];
      assert (s + t)[|s + t| - 1] == t[|t| - 1];
      assert (s + t)[..|s + t| - 1] == s + t';
      LastDotAppend(s, t');
    }
  }

  /** The suffix of a non-empty base name followed by an extension is that extension. */
  lemma SuffixOfExtension(base: string, ext: string)
    requires base != [] && IsExtension(ext)
    ensures Suffix(base + ext) == ext
  {
    var rest := ext[1..];
    assert base + ext == (base + ".") + rest;
    LastDotAppend(base + ".", rest);
    assert (base + ".")[..|base|] == base;
    assert LastDot(base + ".") == |base|;
    assert (base + ext)[|base|..] == ext;
  }

  /** For a name made of a base and an extension, support is decided by the
      lower-cased extension alone. */
  lemma SupportedByExtension(base: string, ext: string)
    requires base != [] && IsExtension(ext)
    ensures IsSupportedFile(base + ext) <==> Lower(ext) == ".pdf" || Lower(ext) in SupportedImageExts
  {
    SuffixOfExtension(base, ext);
  }

  /** The suffix test ignores case: two extensions equal up to ASCII case are
      both accepted or both refused. */
  lemma SupportedIgnoresCase(base: string, ext: string, ext': string)
    requires base != [] && IsExtension(ext) && IsExtension(ext')
    requires Lower(ext) == Lower(ext')
    ensures IsSupportedFile(base + ext) == IsSupportedFile(base + ext')
  {
    SupportedByExtension(base, ext);
    SupportedByExtension(base, ext');
  }

  /** The upper-case spellings `.PDF` and `.JPG` are accepted. */
  lemma SupportedUpperCase(base: string, pdf: string, jpg: string)
    requires base != [] && pdf == ".PDF" && jpg == ".JPG"
    ensures IsSupportedFile(base + pdf) && IsSupportedFile(base + jpg)
  {
    UpperLowered(pdf, ".pdf");
    UpperAccepted(base, pdf, ".pdf");
    UpperLowered(jpg, ".jpg");
    JpgListed();
    UpperAccepted(base, jpg, ".jpg");
  }

  /** The two upper-case spellings are extensions that lower-case as expected. */
  lemma UpperLowered(ext: string, lower: string)
    requires (ext == ".PDF" && lower == ".pdf") || (ext == ".JPG" && lower == ".jpg")
    ensures IsExtension(ext) && Lower(ext) == lower
  {
    LowerExtension(ext, lower);
  }

  lemma JpgListed()
    ensures ".jpg" in SupportedImageExts
  {
  }

  lemma UpperAccepted(base: string, ext: string, lower: string)
    requires base != [] && IsExtension(ext) && Lower(ext) == lower
    requires lower == ".pdf" || lower in SupportedImageExts
    ensures IsSupportedFile(base + ext)
  {
    SupportedByExtension(base, ext);
  }

  /** `.webp` is not among the accepted suffixes. */
  lemma WebpRefused(base: string, ext: string)
    requires base != [] && ext == ".webp"
    ensures !IsSupportedFile(base + ext)
  {
    SupportedByExtension(base, ext);
    LowerExtension(ext, ".webp");
    WebpNotListed();
  }

  lemma WebpNotListed()
    ensures ".webp" != ".pdf" && ".webp" !in SupportedImageExts
  {
    assert ".webp"[1] == 'w';
  }

  lemma LowerExtension(ext: string, lower: string)
    requires |ext| == |lower|
    requires forall k :: 0 <= k < |ext| ==> LowerChar(ext[k]) == lower[k]
    ensures Lower(ext) == lower
  {
  }

  /** A name without a dot, or a dot file such as `.pdf` whose only dot is its
      first character, has no suffix and is refused. */
  lemma NoSuffixRefused(name: string)
    requires forall k :: 0 < k < |name| ==> name[k] != '.'
    ensures Suffix(name) == "" && !IsSupportedFile(name)
  {
  }

  /** `build_output_name`: `<base>_boxes.png` for a single image, and
      `<base>_page_<n>_boxes.png` with the 1-based page number `n` otherwise. */
  function BuildOutputName(baseName: string, pageIndex: Option<int>): (r: string)
  {
    if pageIndex.None? then baseName + "_boxes.png"
    else baseName + "_page_" + IntToString(pageIndex.value + 1) + "_boxes.png"
  }

  /** Page numbers in output names start at 1. */
  lemma OutputNameFirstPage(baseName: string)
    ensures BuildOutputName(baseName, Some(0)) == baseName + "_page_" + "1" + "_boxes.png"
  {
    assert IntToString(1) == "1";
  }

  /** Distinct pages of one document get distinct output names. */
  lemma OutputNameInjective(baseName: string, i: int, j: int)
    requires BuildOutputName(baseName, Some(i)) == BuildOutputName(baseName, Some(j))
    ensures i == j
  {
    MiddleEqual(baseName + "_page_", IntToString(i + 1), IntToString(j + 1), "_boxes.png");
    IntToStringInjective(i + 1, j + 1);
  }

  /** A page's output name never coincides with the single-image name of the
      same base. */
  lemma OutputNamePageDiffers(baseName: string, i: int)
    ensures BuildOutputName(baseName, Some(i)) != BuildOutputName(baseName, None)
  {
    var x := BuildOutputName(baseName, Some(i));
    var y := BuildOutputName(baseName, None);
    assert x[|baseName| + 1] == 'p';
    assert y[|baseName| + 1] == 'b';
  }
}
