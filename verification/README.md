# Layout-aware OCR core, modelled in Dafny

This project models the deterministic core of a layout-aware OCR tool. The tool
finds text regions on a page image, puts them in reading order column by column
(left to right, or right to left for Arabic), reads each region with Tesseract,
and reconciles that reading with a second, digits-only reading. The model covers:

- the rectangle geometry of the detectors (`Box`, `clip_boxes`);
- the deterministic stages of the OpenCV region detector: block-size and
  area-cap arithmetic, the area filter, intersection over union, and the greedy
  duplicate merge;
- the column-aware reading order, with `Column` as a class whose `add` updates
  it in place;
- the page and file pipeline of the controller: full-page fallback, crop
  padding, the choice of page segmentation mode, the digits pass and its
  reconciliation, and how chunks and pages are joined;
- the configuration helpers: `get_config_value`, `to_bool`, `pick`, the
  default and `arabic` profiles, whitelist placeholder expansion, and assembly
  of the Tesseract configuration string;
- the input-file and output-name rules of the layout detector.

Modules follow the source files:

| module | file | source |
|---|---|---|
| `Wrappers` | wrappers.dfy | `Option` |
| `Text` | text.dfy | Python string operations the core relies on: `isdigit`, `isalpha`, `strip`, `lower`, `str(int)`, `join`, `replace` |
| `Seqs` | seqs.dfy | facts about splitting and joining sequences that the proofs use |
| `Sorting` | sorting.dfy | Python's stable `sorted` / `list.sort` by a key pair |
| `Geometry` | geometry.dfy | `layout_OCR/models/detectors/base.py` |
| `DetectorBase` | detector_base.dfy | `layout_detector/models/detectors/base.py` |
| `CvDetector` | cv_detector.dfy | `layout_OCR/models/detectors/simple_cv_detector.py` |
| `Ordering` | ordering.dfy | `layout_OCR/utils/ordering_utils.py` |
| `Reconcile` | reconcile.dfy | the string helpers of `layout_OCR/controllers/pipeline_controller.py` |
| `Pipeline` | pipeline.dfy | `_process_page`, `_process_file`, `_digits_pass_enabled` and `_prefer_digits` of the same file |
| `ConfigUtils` | config.dfy | `layout_OCR/utils/config_utils.py` |
| `OcrUtils` | ocr_utils.dfy | `layout_OCR/utils/ocr_utils.py` |
| `App` | app.dfy | `pick` and `profile_defaults` of `layout_OCR/app.py` |
| `FileUtils` | file_utils.dfy | `layout_detector/utils/file_utils.py` |

Modelling choices:

- **Sorting.** Python's `sorted` and `list.sort` are stable. They are modelled as
  a stable insertion sort on a pair of integer keys. A `reverse=True` sort is a
  sort on the negated key, which keeps equal keys in input order, as Python does.
- **Centres.** `center_x` is compared through the integer `2 * left + width`.
- **Ratios.** Ratios and thresholds are exact `real`s. `int()` of a float is
  truncation toward zero (`CvDetector.Trunc`).
- **Character classes.** `isdigit` is the ASCII digits plus U+0660–U+0669 and
  U+06F0–U+06F9. `isalpha` is the ASCII letters plus the Arabic letters
  U+0621–U+063A and U+0641–U+064A. `strip` removes the ASCII characters
  `str.isspace` holds for (space, `\t`, `\n`, `\v`, `\f`, `\r` and the
  separators U+001C–U+001F), and `lower` folds ASCII letters only.
- **OCR and detector calls.** The OCR engine and the OpenCV contour stage are
  inputs. The two OCR passes are functions from a crop rectangle (and, for the
  primary pass, the page segmentation mode) to the text read. The contours are
  given as their bounding rectangles.

**A letter read in place of a zero.** The reconciliation scans the primary
reading character by character, so a letter `O` read in place of a zero does
not shield the digits after it:

- the `O` is copied;
- the run `12-345` right after it is a digit-or-separator run with a digit;
- that run is replaced by the first digit group, `012-345`.

So `Invoice No: O12-345 dated today` with the digits reading `012-345` becomes
`Invoice No: O012-345 dated today` (`Reconcile.ReplaceLetterZeroExample`).

## Model

| member | source | states |
|---|---|---|
| `Text.Strip` | layout_OCR/controllers/pipeline_controller.py:178 | the result is empty or starts and ends with a non-space, and is never longer than the input |
| `Text.StripIdempotent` | layout_OCR/controllers/pipeline_controller.py:178-180 | stripping a stripped text changes nothing |
| `Text.StripPadded` | layout_OCR/utils/config_utils.py:36 | surrounding whitespace does not change the strip |
| `Text.LowerStrip` | layout_OCR/utils/config_utils.py:36 | lower-casing and stripping commute |
| `Text.TrimStartShape` | layout_OCR/controllers/pipeline_controller.py:178 | the start trim of `strip()` is a suffix of the text and drops whitespace only |
| `Text.TrimEndShape` | layout_OCR/controllers/pipeline_controller.py:178 | the end trim of `strip()` is a prefix of the text and drops whitespace only |
| `Text.IntToString` | layout_OCR/controllers/pipeline_controller.py:85 | the decimal form is non-empty and starts with `-` exactly for negatives |
| `Text.NatToStringRoundTrip` | layout_OCR/controllers/pipeline_controller.py:85 | reading back the decimal form gives the number |
| `Text.IntToStringInjective` | layout_OCR/controllers/pipeline_controller.py:85 | distinct numbers have distinct decimal forms |
| `Text.JoinWithFirst` | layout_OCR/utils/ocr_utils.py:38 | a join starts with its first part |
| `Text.ReplaceAllAbsent` | layout_OCR/utils/ocr_utils.py:47-50 | `replace` leaves a text without the pattern unchanged |
| `Text.ReplaceAllWhole` | layout_OCR/utils/ocr_utils.py:47-50 | replacing a pattern in itself gives the replacement |
| `Sorting.SortBy` | layout_OCR/utils/ordering_utils.py:32-34 | the sort is a permutation of its input |
| `Sorting.SortBySorted` | layout_OCR/utils/ordering_utils.py:47-56 | the sort's output is ordered by the key |
| `Sorting.SortByStable` | layout_OCR/utils/ordering_utils.py:47-50 | elements with equal keys keep their relative order |
| `Sorting.InsertSplit` | layout_OCR/models/detectors/simple_cv_detector.py:117 | inserting into a sorted list puts the new element after every element whose key is not larger and before all the others |
| `Sorting.SortByMap` | layout_OCR/utils/ordering_utils.py:31-34 | sorting the images of the elements under a map gives the images of the sorted elements, when the two keys order the elements alike |
| `Geometry.Box.Width` | layout_OCR/models/detectors/base.py:16-18 | non-negative; equals `right - left` unless that is negative |
| `Geometry.Box.Height` | layout_OCR/models/detectors/base.py:20-22 | non-negative; equals `bottom - top` unless that is negative |
| `Geometry.Box.CenterX` | layout_OCR/models/detectors/base.py:24-26 | the midpoint of a proper box and `left` of a degenerate one |
| `Geometry.Box.CenterY` | layout_OCR/models/detectors/base.py:28-30 | the midpoint of a proper box and `top` of a degenerate one |
| `Geometry.CenterOrder` | layout_OCR/utils/ordering_utils.py:32-34 | comparing centres is comparing the integer doubled centres |
| `Geometry.ClipBoxes` | layout_OCR/models/detectors/base.py:39-49 | the clamp of every box whose clamp has positive extent, in input order; all inside the image; never more boxes than given |
| `Geometry.ClippedShape` | layout_OCR/models/detectors/base.py:43-48 | every surviving box lies in `[0, width-1] x [0, height-1]` with positive extent |
| `Geometry.ClippedAppend` | layout_OCR/models/detectors/base.py:42-48 | each box is clipped on its own, so clipping keeps input order |
| `Geometry.ClippedInsideUnchanged` | layout_OCR/models/detectors/base.py:43-48 | boxes already inside the image pass through unchanged |
| `Geometry.ClippedIdempotent` | layout_OCR/models/detectors/base.py:39-49 | clipping twice is clipping once |
| `Geometry.ClippedTinyImage` | layout_OCR/models/detectors/base.py:43-47 | an image one pixel wide or high keeps no box |
| `DetectorBase.ClipBoxes` | layout_detector/models/detectors/base.py:23-33 | the same clamp as the OCR engine's `clip_boxes`, with all results inside the image |
| `DetectorBase.ClipBoxesIdempotent` | layout_detector/models/detectors/base.py:23-33 | clipping the result again returns it unchanged |
| `DetectorBase.ClipBoxesInsideUnchanged` | layout_detector/models/detectors/base.py:27-32 | boxes inside the image pass through |
| `CvDetector.Trunc` | layout_OCR/models/detectors/simple_cv_detector.py:78 | `int()` truncates toward zero |
| `CvDetector.BlockSize` | layout_OCR/models/detectors/simple_cv_detector.py:39-41 | the block size is odd, at least 3, at most one above `max(3, size)`, and an odd size of at least 3 is kept |
| `CvDetector.LineLength` | layout_OCR/models/detectors/simple_cv_detector.py:59-60 | at least 10, and the truncated `max_dim * ratio` when that is at least 10 |
| `CvDetector.LineThickness` | layout_OCR/models/detectors/simple_cv_detector.py:61 | at least 1 and at least the configured thickness, which is kept when positive |
| `CvDetector.MaxArea` | layout_OCR/models/detectors/simple_cv_detector.py:78 | the truncation of `ratio * width * height` when that is non-negative |
| `CvDetector.ExtractBoxes` | layout_OCR/models/detectors/simple_cv_detector.py:95-107 | returns the area-filtered boxes of the rectangles, in order |
| `CvDetector.ExtractedAppend` | layout_OCR/models/detectors/simple_cv_detector.py:99-106 | the filter works rectangle by rectangle and keeps input order |
| `CvDetector.ExtractedMembers` | layout_OCR/models/detectors/simple_cv_detector.py:100-106 | a box is extracted iff it is the box of a rectangle passing both area tests |
| `CvDetector.ExtractedAreas` | layout_OCR/models/detectors/simple_cv_detector.py:101-106 | every extracted box has area at least `min_area`, and at most `max_area` when that is positive |
| `CvDetector.IntersectionAtMostArea` | layout_OCR/models/detectors/simple_cv_detector.py:136-144 | the intersection is no larger than either box |
| `CvDetector.IouBounds` | layout_OCR/models/detectors/simple_cv_detector.py:135-148 | IoU is 0 for an empty union and always lies in [0, 1] |
| `CvDetector.IouSymmetric` | layout_OCR/models/detectors/simple_cv_detector.py:135-148 | IoU does not depend on argument order |
| `CvDetector.IouSelf` | layout_OCR/models/detectors/simple_cv_detector.py:135-148 | a box of positive area has IoU 1 with itself |
| `CvDetector.DuplicateSymmetric` | layout_OCR/models/detectors/simple_cv_detector.py:122-127 | the duplicate test (IoU and area share) is symmetric |
| `CvDetector.MergeBoxes` | layout_OCR/models/detectors/simple_cv_detector.py:109-132 | the greedy scan over the boxes sorted by area, largest first and stable, keeping each box that duplicates no box kept before |
| `CvDetector.ScanKept` | layout_OCR/models/detectors/simple_cv_detector.py:120-129 | the inner loop keeps the box iff no kept box is a duplicate of it |
| `CvDetector.KeptOrDuplicate` | layout_OCR/models/detectors/simple_cv_detector.py:119-131 | each input box is either kept or duplicates a box kept before it |
| `CvDetector.KeepMembers` | layout_OCR/models/detectors/simple_cv_detector.py:118-131 | the scan only keeps input boxes, each at most as often as given |
| `CvDetector.KeepPrefix` | layout_OCR/models/detectors/simple_cv_detector.py:119-131 | kept boxes are only ever appended |
| `CvDetector.KeepNoDuplicates` | layout_OCR/models/detectors/simple_cv_detector.py:119-131 | no kept box duplicates one kept before it |
| `CvDetector.DroppedHasKeptDuplicate` | layout_OCR/models/detectors/simple_cv_detector.py:121-129 | a dropped box duplicates a box that stays in the output |
| `CvDetector.KeepFirst` | layout_OCR/models/detectors/simple_cv_detector.py:118-131 | the first box is always kept |
| `CvDetector.KeepSubsequence` | layout_OCR/models/detectors/simple_cv_detector.py:118-131 | the kept boxes are a subsequence of the scanned boxes, in their order |
| `CvDetector.KeepCongruent` | layout_OCR/models/detectors/simple_cv_detector.py:119-131 | how the rest of the list is scanned depends only on the boxes kept so far |
| `CvDetector.KeepRepeat` | layout_OCR/models/detectors/simple_cv_detector.py:119-131 | when every box duplicates itself, a box seen before is dropped |
| `CvDetector.KeepExtraCopies` | layout_OCR/models/detectors/simple_cv_detector.py:116-131 | extra copies of boxes already in the list do not change the scan of the sorted list |
| `CvDetector.MergedNoDuplicates` | layout_OCR/models/detectors/simple_cv_detector.py:109-132 | no two merged boxes are duplicates of each other, in either order |
| `CvDetector.MergedOrder` | layout_OCR/models/detectors/simple_cv_detector.py:116-132 | the output is a subsequence of the combined boxes stably sorted by area descending (so equal areas keep their input order), a sub-multiset of the input, led by a largest box |
| `CvDetector.MergedDropped` | layout_OCR/models/detectors/simple_cv_detector.py:119-131 | every dropped input box duplicates some merged box |
| `CvDetector.SelfDuplicate` | layout_OCR/models/detectors/simple_cv_detector.py:122-128 | a box of positive area is a duplicate of itself for thresholds of at most 1 |
| `CvDetector.MergedSelf` | layout_OCR/models/detectors/simple_cv_detector.py:109-132 | merging a list with itself equals merging it with the empty list, for boxes of positive area and thresholds of at most 1 (it is not the list itself, since the merge sorts by area and drops duplicates) |
| `CvDetector.Detect` | layout_OCR/models/detectors/simple_cv_detector.py:78-93 | extract, merge when `merge_linefree`, fall back to the unclosed mask when nothing was found, then clip; all results are inside the image |
| `Ordering.Singleton` | layout_OCR/utils/ordering_utils.py:45 | a new column's extent is exactly its one box |
| `Ordering.AddTo` | layout_OCR/utils/ordering_utils.py:15-18 | the box is appended; the extent only widens and covers the box; a hull stays a hull |
| `Ordering.Column.constructor` | layout_OCR/utils/ordering_utils.py:9-13 | a column holds the extent and members it is given |
| `Ordering.Column.Add` | layout_OCR/utils/ordering_utils.py:15-18 | updates the column in place to `AddTo` of its old value, widening the extent |
| `Ordering.FirstFitSpec` | layout_OCR/utils/ordering_utils.py:37-43 | the chosen column is the first, in creation order, that the box joins |
| `Ordering.FindColumn` | layout_OCR/utils/ordering_utils.py:37-43 | the inner loop finds that first column, or none |
| `Ordering.AddAt` | layout_OCR/utils/ordering_utils.py:41 | only the chosen column changes |
| `Ordering.BuildColumns` | layout_OCR/utils/ordering_utils.py:35-45 | the clustering loop builds fresh, distinct columns whose values are the greedy clustering |
| `Ordering.PlaceBox` | layout_OCR/utils/ordering_utils.py:36-45 | one box is added to the first column it fits, or opens a fresh column; the column values become the greedy placement of the box |
| `Ordering.OrderBoxesColumnAware` | layout_OCR/utils/ordering_utils.py:21-57 | returns the reading order, a permutation of the input, without reading the page width |
| `Ordering.ClusterPartition` | layout_OCR/utils/ordering_utils.py:35-45 | every box lands in exactly one column |
| `Ordering.ReadingOrderPermutation` | layout_OCR/utils/ordering_utils.py:35-57 | the output is a permutation of the input |
| `Ordering.ReadingOrderSingle` | layout_OCR/utils/ordering_utils.py:27-57 | a single box is returned as is |
| `Ordering.FitsOverlaps` | layout_OCR/utils/ordering_utils.py:38-40 | a box joins a column only on a strictly positive overlap, so touching boxes never share a column |
| `Ordering.OverlapAtMostWidth` | layout_OCR/utils/ordering_utils.py:38-40 | a positive overlap is at most the smaller width |
| `Ordering.NeverFitsAboveOne` | layout_OCR/utils/ordering_utils.py:38-40 | with a ratio above 1 no box joins a column |
| `Ordering.FitsNonPositiveRatio` | layout_OCR/utils/ordering_utils.py:40 | with a ratio of at most 0 a box joins iff it overlaps |
| `Ordering.ClusterAboveOne` | layout_OCR/utils/ordering_utils.py:35-45 | with a ratio above 1 every box opens its own column, in visiting order |
| `Ordering.HullContains` | layout_OCR/utils/ordering_utils.py:15-18 | every member of a hull column lies within its extent |
| `Ordering.ClusterHull` | layout_OCR/utils/ordering_utils.py:35-45 | every column's extent is the min left and max right of its members |
| `Ordering.FitsMirror` | layout_OCR/utils/ordering_utils.py:38-40 | the join test of a box and a column does not change when both are reflected |
| `Ordering.ClusterMirror` | layout_OCR/utils/ordering_utils.py:35-45 | clustering the reflected boxes builds the reflected columns, in the same creation order |
| `Ordering.ReadingOrderMirror` | layout_OCR/utils/ordering_utils.py:27-57 | for boxes whose right edge is not left of their left edge, the right-to-left order of the reflected boxes is the reflection of the left-to-right order, and the other way round |
| `Ordering.ColumnsContainMembers` | layout_OCR/utils/ordering_utils.py:47-50 | every emitted column contains its members |
| `Ordering.ColumnsOrdered` | layout_OCR/utils/ordering_utils.py:47-50 | columns go by ascending left (LTR) or descending right (RTL) |
| `Ordering.ColumnsStable` | layout_OCR/utils/ordering_utils.py:47-50 | columns with equal sort edges keep creation order |
| `Ordering.BlockOrdered` | layout_OCR/utils/ordering_utils.py:51-56 | inside a block, top never decreases; ties go by left (LTR) or by descending right (RTL) |
| `Reconcile.CountDigits` | layout_OCR/controllers/pipeline_controller.py:215-216 | at most the length, and positive iff the text holds a digit |
| `Reconcile.CountLetters` | layout_OCR/controllers/pipeline_controller.py:219-220 | at most the length, and zero iff the text holds no letter |
| `Reconcile.CountAppend` | layout_OCR/controllers/pipeline_controller.py:215-220 | both counts add over concatenation |
| `Reconcile.ExtractDigitGroups` | layout_OCR/controllers/pipeline_controller.py:253-269 | the scan returns the digit-or-separator runs that hold a digit, in order |
| `Reconcile.GroupsShape` | layout_OCR/controllers/pipeline_controller.py:253-269 | every group is non-empty, all digits and separators, and holds a digit |
| `Reconcile.GroupsNoDigit` | layout_OCR/controllers/pipeline_controller.py:253-269 | text without a digit yields no group |
| `Reconcile.ReplaceDigitGroups` | layout_OCR/controllers/pipeline_controller.py:223-250 | the scan replaces the k-th digit-bearing run by the k-th group of the digits text, copying everything else |
| `Reconcile.ScanRun` | layout_OCR/controllers/pipeline_controller.py:233-240 | the run scan stops at the first character that is neither digit nor separator, and reports whether the run holds a digit |
| `Reconcile.ReplacedNoGroups` | layout_OCR/controllers/pipeline_controller.py:242-246 | once groups run out, runs are copied verbatim |
| `Reconcile.ReplacedNoDigit` | layout_OCR/controllers/pipeline_controller.py:242-246 | runs without a digit are never replaced |
| `Reconcile.ReplacedOwnGroups` | layout_OCR/controllers/pipeline_controller.py:223-250 | substituting a text's own groups gives the text back |
| `Reconcile.ReplaceWithItself` | layout_OCR/controllers/pipeline_controller.py:223-250 | `_replace_digit_groups(t, t) == t` |
| `Reconcile.ReplacedNoDigitPrefix` | layout_OCR/controllers/pipeline_controller.py:231-249 | a digit-free prefix not ending inside a run is copied verbatim |
| `Reconcile.ReplaceLetterZeroExample` | layout_OCR/controllers/pipeline_controller.py:223-250 | `Invoice No: O12-345 dated today` with digits `012-345` becomes `Invoice No: O012-345 dated today` |
| `Reconcile.ReplacedKeepsOthers` | layout_OCR/controllers/pipeline_controller.py:231-249 | substituting digit-and-separator groups keeps every other character, in order |
| `Reconcile.ReplaceKeepsOthers` | layout_OCR/controllers/pipeline_controller.py:223-250 | the replacement keeps every character that is not a digit or separator |
| `Reconcile.ReplaceWithoutDigits` | layout_OCR/controllers/pipeline_controller.py:224-226 | a digits text without digits leaves the text unchanged |
| `Pipeline.DigitsPassEnabled` | layout_OCR/controllers/pipeline_controller.py:183-192 | off unless enabled; scope `none` never, `all` always, otherwise iff the height ratio is at most the threshold; scope compared lower-cased |
| `Pipeline.DigitsPassScopeCase` | layout_OCR/controllers/pipeline_controller.py:186 | the scope's case does not matter |
| `Pipeline.DigitsPassMonotone` | layout_OCR/controllers/pipeline_controller.py:192 | a shorter box gets the digits pass whenever a taller one does |
| `Pipeline.PreferDigits` | layout_OCR/controllers/pipeline_controller.py:194-212 | blank digits keep the text; replace mode substitutes groups; prefer mode returns one of the two readings, the digits one iff it wins the count test |
| `Pipeline.PreferReplaceIgnoresMinChars` | layout_OCR/controllers/pipeline_controller.py:199-201 | replace mode does not consult `digits_min_chars` |
| `Pipeline.PreferKeepsDigits` | layout_OCR/controllers/pipeline_controller.py:203-212 | prefer mode never loses digits |
| `Pipeline.PreferReplaceKeepsOthers` | layout_OCR/controllers/pipeline_controller.py:199-201 | replace mode keeps every non-digit, non-separator character |
| `Pipeline.PreferWithoutDigits` | layout_OCR/controllers/pipeline_controller.py:194-212 | a digits reading without digits never changes the text |
| `Pipeline.PreferExample` | layout_OCR/controllers/pipeline_controller.py:203-212 | with the unset options, `lOl23` loses to `1023` |
| `Pipeline.PageBoxes` | layout_OCR/controllers/pipeline_controller.py:104-106 | the detector's boxes, or the full page when none were found and the fallback is on |
| `Pipeline.PadCrop` | layout_OCR/controllers/pipeline_controller.py:126-134 | no padding leaves the box; otherwise the box grown by the padding and clamped to the page |
| `Pipeline.PadCropCovers` | layout_OCR/controllers/pipeline_controller.py:128-134 | the padded crop of a box inside the page covers it and stays inside the page |
| `Pipeline.HeightRatio` | layout_OCR/controllers/pipeline_controller.py:139 | non-negative, and at most 1 for a box no taller than the page |
| `Pipeline.ChoosePsm` | layout_OCR/controllers/pipeline_controller.py:140-145 | `line_psm` for short boxes when it is set, otherwise `psm` |
| `Pipeline.ChoosePsmMonotone` | layout_OCR/controllers/pipeline_controller.py:140-145 | a box no taller than one read in line mode is read in line mode |
| `Pipeline.RegionText` | layout_OCR/controllers/pipeline_controller.py:147-178 | a region's text is stripped at both ends |
| `Pipeline.ReadRegion` | layout_OCR/controllers/pipeline_controller.py:126-178 | computes one region's text |
| `Pipeline.OrderedRegions` | layout_OCR/controllers/pipeline_controller.py:104-113 | the page's boxes in reading order, a permutation of them |
| `Pipeline.ProcessPage` | layout_OCR/controllers/pipeline_controller.py:96-181 | the page text is the newline join of the non-empty region texts in reading order |
| `Pipeline.ReadRegions` | layout_OCR/controllers/pipeline_controller.py:127-180 | the region loop collects the non-empty region texts in reading order |
| `Pipeline.RegionTextStripped` | layout_OCR/controllers/pipeline_controller.py:178 | a region text is its own strip |
| `Pipeline.ChunksShape` | layout_OCR/controllers/pipeline_controller.py:178-180 | every chunk is non-empty and stripped, at most one per region |
| `Pipeline.PageTextNoBoxes` | layout_OCR/controllers/pipeline_controller.py:104-106 | no boxes and no fallback give the empty page text |
| `Pipeline.PageTextFallback` | layout_OCR/controllers/pipeline_controller.py:104-106 | with the fallback and no boxes, the page text is the full page's region text |
| `Pipeline.PageRegions` | layout_OCR/controllers/pipeline_controller.py:108-113 | each region is read exactly once |
| `Pipeline.Sections` | layout_OCR/controllers/pipeline_controller.py:76-86 | one section per page |
| `Pipeline.SectionsSnoc` | layout_OCR/controllers/pipeline_controller.py:84-86 | each further page appends its own section: its text, headed `--- Page <n> ---` when page breaks are on for a PDF, stripped |
| `Pipeline.NonEmpty` | layout_OCR/controllers/pipeline_controller.py:86 | keeps the non-empty sections in order, and all of them when none is empty |
| `Pipeline.ProcessFile` | layout_OCR/controllers/pipeline_controller.py:64-94 | the file text is the non-empty sections joined by a blank line (headed) or a newline |
| `Pipeline.SectionHeader` | layout_OCR/controllers/pipeline_controller.py:84-85 | a headed section starts with `--- Page <n> ---`, n counted from 1 |
| `Pipeline.HeadedSectionsKept` | layout_OCR/controllers/pipeline_controller.py:84-86 | with page breaks, every page of a PDF keeps a section |
| `Pipeline.BlankPageSkipped` | layout_OCR/controllers/pipeline_controller.py:86 | without headers, a blank page contributes nothing |
| `Pipeline.PageHeaderInjective` | layout_OCR/controllers/pipeline_controller.py:85 | distinct pages carry distinct headers |
| `ConfigUtils.GetConfigValue` | layout_OCR/utils/config_utils.py:18-32 | the default for no configuration, a missing option or an empty value; otherwise the cast value |
| `ConfigUtils.GetConfigValueOverride` | layout_OCR/utils/config_utils.py:25-32 | only a present, non-empty value overrides the default |
| `ConfigUtils.ToBool` | layout_OCR/utils/config_utils.py:35-37 | true iff the stripped, lower-cased value is one of `1`, `true`, `yes`, `y`, `on` |
| `ConfigUtils.ToBoolIgnoresCase` | layout_OCR/utils/config_utils.py:36 | case does not matter |
| `ConfigUtils.ToBoolIgnoresPadding` | layout_OCR/utils/config_utils.py:36 | surrounding whitespace does not matter |
| `ConfigUtils.ToBoolPlainWord` | layout_OCR/utils/config_utils.py:35-37 | for a plain lower-case word, plain membership |
| `ConfigUtils.ToBoolFalseWords` | layout_OCR/utils/config_utils.py:35-37 | `0`, `false`, `no`, `off` and the empty string are false |
| `ConfigUtils.ToBoolTrueWord` | layout_OCR/utils/config_utils.py:35-37 | padded, upper-case spellings of the accepted words are true |
| `OcrUtils.CodeRange` | layout_OCR/utils/ocr_utils.py:45-46 | the string of consecutive code points `lo` up to `hi - 1` |
| `OcrUtils.PlaceholderDigits` | layout_OCR/utils/ocr_utils.py:45-46 | each placeholder stands for ten digits, and together they are exactly the non-ASCII digits |
| `OcrUtils.CodeRangeMember` | layout_OCR/utils/ocr_utils.py:45-46 | a character is in a code range iff its code point lies in it |
| `OcrUtils.ExpandWhitelist` | layout_OCR/utils/ocr_utils.py:42-44 | a missing or empty whitelist comes back as it is, and a present one stays present |
| `OcrUtils.ExpandWithoutPlaceholders` | layout_OCR/utils/ocr_utils.py:47-50 | a whitelist with neither placeholder is unchanged |
| `OcrUtils.ExpandArabicPlaceholder` | layout_OCR/utils/ocr_utils.py:45-48 | `{ARABIC_INDIC}` expands to exactly U+0660–U+0669 |
| `OcrUtils.ExpandEasternPlaceholder` | layout_OCR/utils/ocr_utils.py:46-49 | `{EASTERN_ARABIC_INDIC}` expands to exactly U+06F0–U+06F9 |
| `OcrUtils.ConfigParts` | layout_OCR/utils/ocr_utils.py:28-37 | one non-empty part per present option, `--psm` first, then `--oem` |
| `OcrUtils.BuildConfig` | layout_OCR/utils/ocr_utils.py:28-38 | the whitelist is expanded, then the configuration is the single-space join of the parts |
| `OcrUtils.AssembleConfig` | layout_OCR/utils/ocr_utils.py:28-37 | appending the options one at a time yields exactly the parts, joined by single spaces |
| `OcrUtils.ConfigEmpty` | layout_OCR/utils/ocr_utils.py:28-38 | with nothing to pass the configuration is empty |
| `OcrUtils.ConfigStartsWithPsm` | layout_OCR/utils/ocr_utils.py:29-30 | the mode, when given, opens the configuration |
| `OcrUtils.ConfigArabicWhitelist` | layout_OCR/utils/ocr_utils.py:33-35 | an `{ARABIC_INDIC}` whitelist reaches Tesseract expanded |
| `OcrUtils.ConfigPsmOnly` | layout_OCR/utils/ocr_utils.py:31-37 | missing or empty options are omitted |
| `App.Pick` | layout_OCR/app.py:231-234 | the command line value when given, otherwise the configuration lookup |
| `App.PickPrecedence` | layout_OCR/app.py:231-234 | the profile default survives unless the command line or a non-empty configuration value replaces it |
| `App.ProfileDefaults` | layout_OCR/app.py:237-321 | any name other than `arabic`, case-insensitively, gives the base profile; `arabic` sets right-to-left at 0.4, the detector clamps, and the digits pass on every region in replace mode; `general` is the same in both |
| `App.ArabicCv` | layout_OCR/app.py:297-311 | the `arabic` detector settings respect their floors, never fall below the defaults they take a maximum with, and keep the rest |
| `App.ArabicCvFromDefaults` | layout_OCR/app.py:297-311 | from the detector defaults: area 50, kernel 8x3, constant 12, thickness 2, margin 3 |
| `App.BaseProfileNoDigitsPass` | layout_OCR/app.py:256 | the base profile never runs the digits pass |
| `App.ArabicDigitsPassEverywhere` | layout_OCR/app.py:312-320 | the `arabic` profile runs the digits pass on every region |
| `App.DigitsWhitelistChars` | layout_OCR/app.py:258 | the digits whitelist admits exactly the characters the reconciliation treats as digits or separators |
| `App.AsciiWhitelist` | layout_OCR/app.py:258 | the ASCII head of the whitelist is the ten digits and `-/:.,` |
| `FileUtils.LastDot` | layout_detector/utils/file_utils.py:10 | the index of the last dot, or -1 |
| `FileUtils.Suffix` | layout_detector/utils/file_utils.py:10 | empty, or a dot and at least one dot-free character ending the name, never the whole name |
| `FileUtils.SuffixOfExtension` | layout_detector/utils/file_utils.py:10 | the suffix of `base + ext` is `ext` |
| `FileUtils.SupportedByExtension` | layout_detector/utils/file_utils.py:6-11 | supported iff the lower-cased extension is `.pdf` or one of the six image suffixes |
| `FileUtils.SupportedIgnoresCase` | layout_detector/utils/file_utils.py:10 | extensions equal up to case are treated alike |
| `FileUtils.SupportedUpperCase` | layout_detector/utils/file_utils.py:6-11 | `.PDF` and `.JPG` are accepted |
| `FileUtils.WebpRefused` | layout_detector/utils/file_utils.py:6-11 | `.webp` is refused |
| `FileUtils.NoSuffixRefused` | layout_detector/utils/file_utils.py:9-11 | a name without a suffix, such as a dot file `.pdf`, is refused |
| `FileUtils.OutputNameFirstPage` | layout_detector/utils/file_utils.py:33 | page numbers in names start at 1 |
| `FileUtils.OutputNameInjective` | layout_detector/utils/file_utils.py:33 | distinct pages get distinct names |
| `FileUtils.OutputNamePageDiffers` | layout_detector/utils/file_utils.py:31-33 | a page name never equals the single-image name |

## Left out

- Ordering.ReadingOrderMirror: stated only for boxes whose right edge is not left of their left edge. For a box with `right < left`, `width` is 0 and `center_x` is `left`, which does not reflect to the centre of the reflected box, so the visiting order need not mirror.
- The image work: OpenCV thresholding, morphology and contour finding, Tesseract itself, PDF rendering, image preprocessing, cropping and drawing. The contours enter as bounding rectangles and the OCR passes as functions.
- File and console I/O: reading and writing files, `collect_inputs` and `ensure_output_dir` (directory walking), the debug directory, the command line parsers, `main`, and the `tesseract_cmd` side effect of `ocr_image`.
- Settings that only reach those external calls: `lang`, `oem` for the engine, `scale`, `binarize`, `denoise`, `sharpen`, `dpi`, the digits pass's own whitelist, mode and extra options as passed to the engine. They are fields of the profile records, but nothing is proved about their use.
- Floating point: ratios are exact reals, so rounding at the last bit of a float comparison is not modelled.
- Unicode: `isdigit`, `isalpha`, `strip` and `lower` are modelled on the character ranges above, not on the full Unicode tables.
- `configparser` details: key case folding, the `DEFAULT` section, interpolation, and a `cast` that raises.
- Paths: a path is its final name, so directories and trailing separators are not parsed. `Path.suffix` follows the rule where a trailing dot gives no suffix.
- `ocr_options.get` fallbacks: the options records carry the values after the fallback is applied (`Pipeline.UnsetOcrOptions` holds the fallbacks). `App.OcrOptionsOf` gives the options `main` builds when neither the command line nor the configuration overrides the profile; the per-key `pick` calls of `main` are not modelled.
- `App.ProfileDefaults`: the result is a record, not a nested dictionary, so adding or misspelling keys is not modelled.
