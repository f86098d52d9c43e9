/** The decisions `PipelineController` takes around the OCR engine: which boxes a
    page is read from, how each region is cropped, which page segmentation mode
    reads it, whether the digits-only pass runs and which of the two readings is
    kept, and how region texts become page texts and page texts a file's text.

    The detector, the Tesseract engine and the page images are not modelled: the
    detector's boxes are an input, and the two OCR calls are functions from the
    crop rectangle (and, for the primary pass, the page segmentation mode) to the
    text read. */
module Pipeline {
  import opened Wrappers
  import opened Text
  import opened Geometry
  import opened Reconcile
  import opened Seqs
  import Ordering

  /** The `ocr_options` entries `_process_page` reads, after `.get` has applied its
      fallback. */
  datatype OcrOptions = OcrOptions(
    cropPadding: int,
    psm: Option<int>,
    linePsm: Option<int>,
    linePsmHeightRatio: real,
    digitsPass: bool,
    digitsPassScope: string,
    digitsHeightRatio: real,
    digitsReplace: bool,
    digitsMinChars: int)

  /** What `_process_page` reads from an empty `ocr_options` dictionary: the
      fallbacks of its `.get` calls. */
  const UnsetOcrOptions := OcrOptions(0, None, None, 0.07, false, "short", 0.08, false, 2)

  /** The `order_options` entries: `rtl` (default false) and
      `column_overlap_ratio` (default 0.3). */
  datatype OrderOptions = OrderOptions(rtl: bool, columnOverlapRatio: real)

  const UnsetOrderOptions := OrderOptions(false, 0.3)

  // ---------------------------------------------------------------------------
  // _digits_pass_enabled

  /** `_digits_pass_enabled`: off unless `digits_pass` is set; then decided by the
      lower-cased scope: `"none"` never, `"all"` always, and any other scope only
      for boxes at most `digits_height_ratio` of the page height. */
  function DigitsPassEnabled(opts: OcrOptions, heightRatio: real): (r: bool)
    ensures !opts.digitsPass ==> !r
    ensures opts.digitsPass && Lower(opts.digitsPassScope) == "none" ==> !r
    ensures opts.digitsPass && Lower(opts.digitsPassScope) == "all" ==> r
    ensures opts.digitsPass && Lower(opts.digitsPassScope) != "none" && Lower(opts.digitsPassScope) != "all" ==>
              (r <==> heightRatio <= opts.digitsHeightRatio)
  {
    if !opts.digitsPass then false
    else
      var scope := Lower(opts.digitsPassScope);
      if scope == "none" then false
      else if scope == "all" then true
      else heightRatio <= opts.digitsHeightRatio
  }

  /** The scope is compared without regard to ASCII case. */
  lemma DigitsPassScopeCase(opts: OcrOptions, scope: string, heightRatio: real)
    requires Lower(scope) == Lower(opts.digitsPassScope)
    ensures DigitsPassEnabled(opts.(digitsPassScope := scope), heightRatio) == DigitsPassEnabled(opts, heightRatio)
  {
  }

  /** A box no taller than one that gets the digits pass gets it too. */
  lemma DigitsPassMonotone(opts: OcrOptions, shorter: real, taller: real)
    requires shorter <= taller && DigitsPassEnabled(opts, taller)
    ensures DigitsPassEnabled(opts, shorter)
  {
  }

  // ---------------------------------------------------------------------------
  // _prefer_digits

  /** The prefer-mode test: the digits pass has at least `digits_min_chars`
      digits, more digits than the primary text, and at least as many digits as
      the primary text has letters. */
  predicate DigitsWin(minChars: int, text: string, digits: string) {
    CountDigits(digits) >= minChars && CountDigits(digits) > CountDigits(text) && CountDigits(digits) >= CountLetters(text)
  }

  /** `_prefer_digits`: an empty (after stripping) digits reading leaves the
      primary text; in replace mode the digit groups of the digits reading are
      substituted into the primary text; in prefer mode the stripped digits
      reading wins exactly when `DigitsWin` holds, and otherwise the primary text
      is kept. */
  function PreferDigits(opts: OcrOptions, text: string, digitsText: string): (r: string)
    ensures Strip(digitsText) == [] ==> r == text
    ensures Strip(digitsText) != [] && opts.digitsReplace ==> r == ReplaceDigitGroupsSpec(text, Strip(digitsText))
    ensures !opts.digitsReplace ==> r == text || r == Strip(digitsText)
    ensures !opts.digitsReplace && Strip(digitsText) != [] ==>
              (DigitsWin(opts.digitsMinChars, text, Strip(digitsText)) ==> r == Strip(digitsText)) &&
              (!DigitsWin(opts.digitsMinChars, text, Strip(digitsText)) ==> r == text)
  {
    var digits := Strip(digitsText);
    if digits == [] then text
    else if opts.digitsReplace then ReplaceDigitGroupsSpec(text, digits)
    else
      var digitsCount := CountDigits(digits);
      if digitsCount < opts.digitsMinChars then text
      else if digitsCount > CountDigits(text) && digitsCount >= CountLetters(text) then digits
      else text
  }

  /** In replace mode `digits_min_chars` is not consulted. */
  lemma PreferReplaceIgnoresMinChars(opts: OcrOptions, minChars: int, text: string, digitsText: string)
    requires opts.digitsReplace
    ensures PreferDigits(opts.(digitsMinChars := minChars), text, digitsText) == PreferDigits(opts, text, digitsText)
  {
  }

  /** In prefer mode the kept reading never has fewer digits than the primary one. */
  lemma PreferKeepsDigits(opts: OcrOptions, text: string, digitsText: string)
    requires !opts.digitsReplace
    ensures CountDigits(PreferDigits(opts, text, digitsText)) >= CountDigits(text)
  {
  }

  /** In replace mode every character that is not a digit or separator is kept,
      in order. */
  lemma PreferReplaceKeepsOthers(opts: OcrOptions, text: string, digitsText: string)
    requires opts.digitsReplace
    ensures Others(PreferDigits(opts, text, digitsText)) == Others(text)
  {
    if Strip(digitsText) != [] {
      ReplaceKeepsOthers(text, Strip(digitsText));
    }
  }

  /** The characters of `strip(s)` are characters of `s`. */
  lemma StripChars(s: string, i: nat)
    requires i < |Strip(s)|
    ensures exists j :: 0 <= j < |s| && s[j] == Strip(s)[i]
  {
    var t := TrimStart(s);
    TrimStartShape(s);
    TrimEndShape(t);
    assert Strip(s) == TrimEnd(t);
    assert Strip(s)[i] == t[i];
    assert t[i] == s[|s| - |t| + i];
  }

  /** A digits reading without any digit never changes the text, in either mode. */
  lemma PreferWithoutDigits(opts: OcrOptions, text: string, digitsText: string)
    requires !HasDigit(digitsText)
    ensures PreferDigits(opts, text, digitsText) == text
  {
    var digits := Strip(digitsText);
    forall i | 0 <= i < |digits| ensures !IsDigit(digits[i]) {
      StripChars(digitsText, i);
    }
    if digits != [] && opts.digitsReplace {
      ReplaceWithoutDigits(text, digits);
    }
  }

  /** A prefer-mode example: the primary pass reads `lOl23` (two digits, three
      letters), the digits pass reads `1023` (four digits); the digits pass wins. */
  lemma PreferExample()
    ensures PreferDigits(UnsetOcrOptions, "lOl23", "1023") == "1023"
  {
    var primary, digits := "lOl23", "1023";
    assert Strip(digits) == digits by { RunNoSpace(digits); }
    ExampleDigitsCount();
    ExamplePrimaryCounts();
    assert DigitsWin(2, primary, digits);
  }

  lemma ExampleDigitsCount()
    ensures CountDigits("1023") == 4
  {
    assert "1023"[..3] == "102" && "102"[..2] == "10" && "10"[..1] == "1" && "1"[..0] == "";
  }

  lemma ExamplePrimaryCounts()
    ensures CountDigits("lOl23") == 2 && CountLetters("lOl23") == 3
  {
    assert "lOl23"[..4] == "lOl2" && "lOl2"[..3] == "lOl" && "lOl"[..2] == "lO" && "lO"[..1] == "l" && "l"[..0] == "";
  }

  // ---------------------------------------------------------------------------
  // _process_page: boxes, crops, page segmentation mode

  /** The boxes a page is read from: the detector's, or the whole page when it
      found none and the full-page fallback is on. */
  function PageBoxes(detected: seq<Box>, fallbackFullPage: bool, width: int, height: int): (r: seq<Box>)
    ensures detected != [] ==> r == detected
    ensures detected == [] ==> (r == [] <==> !fallbackFullPage)
    ensures detected == [] && fallbackFullPage ==> r == [Box(0, 0, width, height)]
  {
    if detected == [] && fallbackFullPage then [Box(0, 0, width, height)] else detected
  }

  /** The crop rectangle of a region: the box grown by `crop_padding` on every
      side and clamped to the page when the padding is positive, the box itself
      otherwise. */
  function PadCrop(box: Box, padding: int, width: int, height: int): (r: Box)
    ensures padding <= 0 ==> r == box
    ensures padding > 0 ==> 0 <= r.left && 0 <= r.top && r.right <= width && r.bottom <= height
    ensures padding > 0 ==> r.left == Max(0, box.left - padding) && r.top == Max(0, box.top - padding)
    ensures padding > 0 ==> r.right == Min(width, box.right + padding) && r.bottom == Min(height, box.bottom + padding)
  {
    if padding > 0 then
      Box(Max(0, box.left - padding), Max(0, box.top - padding),
          Min(width, box.right + padding), Min(height, box.bottom + padding))
    else box
  }

  /** A padded crop of a box inside the page covers the box and lies inside the
      page. */
  lemma PadCropCovers(box: Box, padding: int, width: int, height: int)
    requires padding > 0
    requires 0 <= box.left <= box.right <= width && 0 <= box.top <= box.bottom <= height
    ensures var c := PadCrop(box, padding, width, height);
            0 <= c.left <= box.left && box.right <= c.right <= width &&
            0 <= c.top <= box.top && box.bottom <= c.bottom <= height
  {
  }

  /** `box.height / max(1, image.height)`. */
  function HeightRatio(box: Box, height: int): (r: real)
    ensures r >= 0.0
    ensures height >= 1 && box.Height() <= height ==> r <= 1.0
  {
    box.Height() as real / Max(1, height) as real
  }

  /** The page segmentation mode a region is read with: `line_psm` when it is set
      and the box is at most `line_psm_height_ratio` of the page height, `psm`
      otherwise. */
  function ChoosePsm(opts: OcrOptions, heightRatio: real): (r: Option<int>)
    ensures r == opts.psm || r == opts.linePsm
    ensures opts.linePsm.None? ==> r == opts.psm
    ensures opts.linePsm.Some? ==> (r == opts.linePsm <== heightRatio <= opts.linePsmHeightRatio)
    ensures r != opts.psm ==> heightRatio <= opts.linePsmHeightRatio
  {
    if opts.linePsm.Some? && heightRatio <= opts.linePsmHeightRatio then opts.linePsm else opts.psm
  }

  /** A box no taller than one read in line mode is read in line mode too. */
  lemma ChoosePsmMonotone(opts: OcrOptions, shorter: real, taller: real)
    requires shorter <= taller && opts.linePsm.Some?
    requires taller <= opts.linePsmHeightRatio
    ensures ChoosePsm(opts, shorter) == opts.linePsm
  {
  }

  // ---------------------------------------------------------------------------
  // _process_page: region texts and the page text

  /** The stripped text of one region: the primary reading, reconciled with the
      digits reading when the digits pass is enabled for its height. */
  function RegionText(opts: OcrOptions, box: Box, width: int, height: int,
                      primary: (Box, Option<int>) -> string, digits: Box -> string): (r: string)
    ensures r == [] || (!IsSpace(r[0]) && !IsSpace(r[|r| - 1]))
  {
    var crop := PadCrop(box, opts.cropPadding, width, height);
    var ratio := HeightRatio(box, height);
    var text := primary(crop, ChoosePsm(opts, ratio));
    Strip(if DigitsPassEnabled(opts, ratio) then PreferDigits(opts, text, digits(crop)) else text)
  }

  /** The chunks of a page: the region texts of `ordered` that are not empty, in
      order. */
  function Chunks(ordered: seq<Box>, opts: OcrOptions, width: int, height: int,
                  primary: (Box, Option<int>) -> string, digits: Box -> string): seq<string>
  {
    if ordered == [] then []
    else
      var text := RegionText(opts, ordered[|ordered| - 1], width, height, primary, digits);
      Chunks(ordered[..|ordered| - 1], opts, width, height, primary, digits) + (if text != [] then [text] else [])
  }

  /** What `_process_page` returns. */
  function PageText(detected: seq<Box>, width: int, height: int, fallbackFullPage: bool,
                    order: OrderOptions, opts: OcrOptions,
                    primary: (Box, Option<int>) -> string, digits: Box -> string): string
  {
    var ordered := Ordering.ReadingOrder(PageBoxes(detected, fallbackFullPage, width, height),
                                         order.rtl, order.columnOverlapRatio);
    JoinWith("\n", Chunks(ordered, opts, width, height, primary, digits))
  }

  /** The body of `_process_page`'s region loop: one region's stripped text. */
  method ReadRegion(box: Box, width: int, height: int, opts: OcrOptions,
                    primary: (Box, Option<int>) -> string, digits: Box -> string)
    returns (text: string)
    ensures text == RegionText(opts, box, width, height, primary, digits)
  {
    var crop := PadCrop(box, opts.cropPadding, width, height);
    var heightRatio := HeightRatio(box, height);
    var psm := ChoosePsm(opts, heightRatio);
    text := primary(crop, psm);
    if DigitsPassEnabled(opts, heightRatio) {
      var digitsText := digits(crop);
      text := PreferDigits(opts, text, digitsText);
    }
    text := Strip(text);
  }

  /** The regions of a page in reading order: the detector's boxes, or the full
      page as fallback, ordered column by column. */
  method OrderedRegions(detected: seq<Box>, width: int, height: int, fallbackFullPage: bool, order: OrderOptions)
    returns (ordered: seq<Box>)
    ensures ordered == Ordering.ReadingOrder(PageBoxes(detected, fallbackFullPage, width, height), order.rtl, order.columnOverlapRatio)
    ensures multiset(ordered) == multiset(PageBoxes(detected, fallbackFullPage, width, height))
  {
    var boxes := detected;
    if |boxes| == 0 && fallbackFullPage {
      boxes := [Box(0, 0, width, height)];
    }
    ordered := Ordering.OrderBoxesColumnAware(boxes, width, order.rtl, order.columnOverlapRatio);
  }

  /** `_process_page`, from the detector's boxes onwards. */
  method ProcessPage(detected: seq<Box>, width: int, height: int, fallbackFullPage: bool,
                     order: OrderOptions, opts: OcrOptions,
                     primary: (Box, Option<int>) -> string, digits: Box -> string)
    returns (pageText: string)
    ensures pageText == PageText(detected, width, height, fallbackFullPage, order, opts, primary, digits)
  {
    var ordered := OrderedRegions(detected, width, height, fallbackFullPage, order);
    var chunks := ReadRegions(ordered, width, height, opts, primary, digits);
    pageText := JoinWith("\n", chunks);
  }

  /** The region loop of `_process_page`: the non-empty region texts, in reading
      order. */
  method ReadRegions(ordered: seq<Box>, width: int, height: int, opts: OcrOptions,
                     primary: (Box, Option<int>) -> string, digits: Box -> string)
    returns (chunks: seq<string>)
    ensures chunks == Chunks(ordered, opts, width, height, primary, digits)
  {
    chunks := [];
    for i := 0 to |ordered|
      invariant chunks == Chunks(ordered[..i], opts, width, height, primary, digits)
    {
      var text := ReadRegion(ordered[i], width, height, opts, primary, digits);
      ChunksSnoc(ordered, i, opts, width, height, primary, digits);
      if text != [] {
        chunks := chunks + [text];
      }
    }
    assert ordered[..|ordered|] == ordered;
  }

  lemma ChunksSnoc(ordered: seq<Box>, i: nat, opts: OcrOptions, width: int, height: int,
                   primary: (Box, Option<int>) -> string, digits: Box -> string)
    requires i < |ordered|
    ensures var text := RegionText(opts, ordered[i], width, height, primary, digits);
            Chunks(ordered[..i + 1], opts, width, height, primary, digits) ==
            Chunks(ordered[..i], opts, width, height, primary, digits) + (if text != [] then [text] else [])
  {
    assert ordered[..i + 1][..i] == ordered[..i];
  }

  /** A region text is its own strip. */
  lemma RegionTextStripped(opts: OcrOptions, box: Box, width: int, height: int,
                           primary: (Box, Option<int>) -> string, digits: Box -> string)
    ensures Strip(RegionText(opts, box, width, height, primary, digits)) == RegionText(opts, box, width, height, primary, digits)
  {
    var crop := PadCrop(box, opts.cropPadding, width, height);
    var ratio := HeightRatio(box, height);
    var text := primary(crop, ChoosePsm(opts, ratio));
    StripIdempotent(if DigitsPassEnabled(opts, ratio) then PreferDigits(opts, text, digits(crop)) else text);
  }

  /** Every chunk is non-empty and already stripped, and there is at most one per
      box. */
  lemma {:induction false} ChunksShape(ordered: seq<Box>, opts: OcrOptions, width: int, height: int,
                                       primary: (Box, Option<int>) -> string, digits: Box -> string)
    ensures var cs := Chunks(ordered, opts, width, height, primary, digits);
            |cs| <= |ordered| && forall k :: 0 <= k < |cs| ==> cs[k] != [] && Strip(cs[k]) == cs[k]
  {
    if ordered != [] {
      ChunksShape(ordered[..|ordered| - 1], opts, width, height, primary, digits);
      RegionTextStripped(opts, ordered[|ordered| - 1], width, height, primary, digits);
    }
  }

  /** A page without boxes and without the fallback reads as the empty text. */
  lemma PageTextNoBoxes(width: int, height: int, order: OrderOptions, opts: OcrOptions,
                        primary: (Box, Option<int>) -> string, digits: Box -> string)
    ensures PageText([], width, height, false, order, opts, primary, digits) == []
  {
    assert Ordering.Cluster([], order.columnOverlapRatio) == [];
    assert Ordering.ReadingOrder([], order.rtl, order.columnOverlapRatio) == [];
  }

  /** With the fallback on and no detected box, the page text is the text of the
      whole page read as one region. */
  lemma PageTextFallback(width: int, height: int, order: OrderOptions, opts: OcrOptions,
                         primary: (Box, Option<int>) -> string, digits: Box -> string)
    ensures PageText([], width, height, true, order, opts, primary, digits) ==
            RegionText(opts, Box(0, 0, width, height), width, height, primary, digits)
  {
    var page := Box(0, 0, width, height);
    Ordering.ReadingOrderSingle(page, order.rtl, order.columnOverlapRatio);
    assert PageBoxes([], true, width, height) == [page];
    var text := RegionText(opts, page, width, height, primary, digits);
    assert [page][..0] == [];
    assert Chunks([page], opts, width, height, primary, digits) == (if text != [] then [text] else []);
  }

  /** Every detected region is read exactly once: the regions are the detector's
      boxes (or the whole page), reordered. */
  lemma PageRegions(detected: seq<Box>, width: int, height: int, fallbackFullPage: bool, order: OrderOptions)
    ensures multiset(Ordering.ReadingOrder(PageBoxes(detected, fallbackFullPage, width, height), order.rtl, order.columnOverlapRatio))
            == multiset(PageBoxes(detected, fallbackFullPage, width, height))
  {
    Ordering.ReadingOrderPermutation(PageBoxes(detected, fallbackFullPage, width, height), order.rtl, order.columnOverlapRatio);
  }

  // ---------------------------------------------------------------------------
  // _process_file

  /** The page header written before each page of a PDF when page breaks are on;
      pages are numbered from 1. */
  function PageHeader(index: nat): string {
    "--- Page " + IntToString(index + 1) + " ---"
  }

  /** The section of the page at `index`: its text, headed when page breaks are on
      and the document is a PDF, and stripped. */
  function Section(index: nat, pageText: string, includePageBreaks: bool, isPdf: bool): string {
    Strip(if includePageBreaks && isPdf then PageHeader(index) + "\n" + pageText else pageText)
  }

  /** The sections of the pages, one per page, the page at position `k` having index `k`. */
  function Sections(pageTexts: seq<string>, includePageBreaks: bool, isPdf: bool): (r: seq<string>)
    ensures |r| == |pageTexts|
  {
    if pageTexts == [] then []
    else
      Sections(pageTexts[..|pageTexts| - 1], includePageBreaks, isPdf) +
      [Section(|pageTexts| - 1, pageTexts[|pageTexts| - 1], includePageBreaks, isPdf)]
  }

  /** The non-empty sections, in order. */
  function NonEmpty(sections: seq<string>): (r: seq<string>)
    ensures |r| <= |sections|
    ensures forall k :: 0 <= k < |r| ==> r[k] != [] && r[k] in sections
    ensures (forall k :: 0 <= k < |sections| ==> sections[k] != []) ==> r == sections
  {
    if sections == [] then []
    else
      var last := sections[|sections| - 1];
      NonEmpty(sections[..|sections| - 1]) + (if last != [] then [last] else [])
  }

  /** What `_process_file` writes: the non-empty sections joined by a blank line
      when page breaks are on, by a newline otherwise. */
  function FileText(pageTexts: seq<string>, includePageBreaks: bool, isPdf: bool): string {
    JoinWith(if includePageBreaks then "\n\n" else "\n", NonEmpty(Sections(pageTexts, includePageBreaks, isPdf)))
  }

  /** A further page adds its own section at the end. */
  lemma SectionsSnoc(pageTexts: seq<string>, page: string, includePageBreaks: bool, isPdf: bool)
    ensures Sections(pageTexts + [page], includePageBreaks, isPdf) ==
            Sections(pageTexts, includePageBreaks, isPdf) + [Section(|pageTexts|, page, includePageBreaks, isPdf)]
  {
    SnocFront(pageTexts, page);
  }

  /** `_process_file`, from the page texts onwards. */
  method ProcessFile(pageTexts: seq<string>, includePageBreaks: bool, isPdf: bool) returns (combined: string)
    ensures combined == FileText(pageTexts, includePageBreaks, isPdf)
  {
    var textSections: seq<string> := [];
    for index := 0 to |pageTexts|
      invariant textSections == Sections(pageTexts[..index], includePageBreaks, isPdf)
    {
      var pageText := pageTexts[index];
      if includePageBreaks && isPdf {
        pageText := PageHeader(index) + "\n" + pageText;
      }
      TakeSnoc(pageTexts, index);
      SectionsSnoc(pageTexts[..index], pageTexts[index], includePageBreaks, isPdf);
      textSections := textSections + [Strip(pageText)];
    }
    TakeAll(pageTexts);
    var separator := if includePageBreaks then "\n\n" else "\n";
    combined := JoinWith(separator, NonEmpty(textSections));
  }

  /** A headed section keeps its header: it starts with `--- Page <n> ---` for the
      1-based page number `n`. */
  lemma SectionHeader(index: nat, pageText: string)
    ensures var s := Section(index, pageText, true, true);
            |PageHeader(index)| <= |s| && s[..|PageHeader(index)|] == PageHeader(index)
  {
    var h := PageHeader(index);
    var full := h + "\n" + pageText;
    assert full[0] == '-';
    assert TrimStart(full) == full;
    assert h[|h| - 1] == '-';
    TrimEndKeepsHead(h, "\n", pageText);
  }

  /** With page breaks on, every page of a PDF has a section, blank or not. */
  lemma {:induction false} HeadedSectionsKept(pageTexts: seq<string>)
    ensures NonEmpty(Sections(pageTexts, true, true)) == Sections(pageTexts, true, true)
    decreases |pageTexts|
  {
    if pageTexts != [] {
      var n := |pageTexts| - 1;
      var front := Sections(pageTexts[..n], true, true);
      var last := Section(n, pageTexts[n], true, true);
      HeadedSectionsKept(pageTexts[..n]);
      SectionHeader(n, pageTexts[n]);
      SnocFront(front, last);
    }
  }

  /** Without headers, a blank page contributes nothing. */
  lemma BlankPageSkipped(pageTexts: seq<string>, blank: string, includePageBreaks: bool, isPdf: bool)
    requires AllSpace(blank)
    requires !(includePageBreaks && isPdf)
    ensures NonEmpty(Sections(pageTexts + [blank], includePageBreaks, isPdf)) == NonEmpty(Sections(pageTexts, includePageBreaks, isPdf))
  {
    SectionsSnoc(pageTexts, blank, includePageBreaks, isPdf);
    SnocFront(Sections(pageTexts, includePageBreaks, isPdf), Section(|pageTexts|, blank, includePageBreaks, isPdf));
    assert Strip(blank) == [] by {
      StripPadded(blank, [], []);
      assert blank + [] + [] == blank;
    }
  }

  /** Distinct pages carry distinct headers. */
  lemma PageHeaderInjective(i: nat, j: nat)
    requires PageHeader(i) == PageHeader(j)
    ensures i == j
  {
    var a, b := IntToString(i + 1), IntToString(j + 1);
    var prefix := "--- Page ";
    assert PageHeader(i) == prefix + (a + " ---");
    assert PageHeader(j) == prefix + (b + " ---");
    assert (prefix + (a + " ---"))[|prefix|..] == a + " ---";
    assert (prefix + (b + " ---"))[|prefix|..] == b + " ---";
    assert a == (a + " ---")[..|a|];
    assert b == (b + " ---")[..|b|];
    IntToStringInjective(i + 1, j + 1);
  }
}
