/** The settings logic of the OCR command line: `pick`, which lets a command line
    value override the configuration file and the configuration file override the
    profile default, and `profile_defaults`, the default and `arabic` profiles.
    Argument parsing and the rest of `main` are not modelled. */
module App {
  import opened Wrappers
  import opened Text
  import opened ConfigUtils
  import OcrUtils
  import Reconcile
  import CvDetector
  import Pipeline

  /** `pick`: the command line value when one was given, otherwise the
      configuration lookup with the profile default. */
  function Pick<T>(value: Option<T>, config: Option<Config>, section: string, key: string, default: T, cast: string -> T): (r: T)
    ensures value.Some? ==> r == value.value
    ensures value.None? ==> r == GetConfigValue(config, section, key, default, cast)
  {
    if value.Some? then value.value else GetConfigValue(config, section, key, default, cast)
  }

  /** The profile default survives unless the command line or a non-empty
      configuration value replaces it. */
  lemma PickPrecedence<T>(value: Option<T>, config: Option<Config>, section: string, key: string, default: T, cast: string -> T)
    ensures value.None? && (config.None? || !HasOption(config.value, section, key)) ==>
              Pick(value, config, section, key, default, cast) == default
    ensures value.None? && config.Some? && HasOption(config.value, section, key) && config.value[section][key] == "" ==>
              Pick(value, config, section, key, default, cast) == default
    ensures value.None? && config.Some? && HasOption(config.value, section, key) && config.value[section][key] != "" ==>
              Pick(value, config, section, key, default, cast) == cast(config.value[section][key])
    ensures value.Some? ==> Pick(value, config, section, key, default, cast) == value.value
  {
  }

  // ---------------------------------------------------------------------------
  // the profiles

  /** The `general` section of a profile. */
  datatype GeneralProfile = GeneralProfile(dpi: int, outputDir: string, includePageBreaks: bool, fallbackFullPage: bool)

  /** The `ocr` section of a profile. */
  datatype OcrProfile = OcrProfile(
    lang: string,
    psm: int,
    oem: int,
    scale: real,
    binarize: bool,
    denoise: bool,
    sharpen: bool,
    cropPadding: int,
    linePsm: int,
    linePsmHeightRatio: real,
    digitsPass: bool,
    digitsHeightRatio: real,
    digitsWhitelist: string,
    digitsPsm: int,
    digitsMinChars: int,
    digitsPassScope: string,
    digitsReplace: bool,
    whitelist: Option<string>,
    extraConfig: Option<string>,
    digitsExtraConfig: Option<string>)

  /** A profile: the four sections of the dictionary `profile_defaults` builds. */
  datatype Profile = Profile(general: GeneralProfile, ocr: OcrProfile, order: Pipeline.OrderOptions, cv: CvDetector.SimpleCvConfig)

  /** The characters the digits-only pass admits: the ASCII digits, the
      separators `-/:.,`, then the ten Arabic-Indic digits U+0660 to U+0669 and
      the ten Eastern Arabic-Indic digits U+06F0 to U+06F9, in that order. */
  const DigitsWhitelist: string := "0123456789-/:.," + OcrUtils.ArabicIndic + OcrUtils.EasternArabicIndic

  /** The base profile, built around the detector defaults it is given. */
  function BaseProfile(cvDefaults: CvDetector.SimpleCvConfig): Profile {
    Profile(
      GeneralProfile(500, "output", false, true),
      OcrProfile("eng+ara", 6, 1, 2.0, true, true, true, 4, 7, 0.07,
                 false, 0.08, DigitsWhitelist, 7, 2, "short", false, None, None, None),
      Pipeline.OrderOptions(false, 0.3),
      cvDefaults)
  }

  /** `profile_defaults`: any name other than `arabic`, compared without regard
      to case, gives the base profile. The `arabic` profile reads right to left
      with a wider column overlap, tightens the detector (larger minimum area,
      narrower kernel, line removal tuned, line-free merge on) and runs the
      digits pass on every region, replacing digit groups in place. */
  method ProfileDefaults(name: string, cvDefaults: CvDetector.SimpleCvConfig) returns (profile: Profile)
    ensures Lower(name) != "arabic" ==> profile == BaseProfile(cvDefaults)
    ensures profile.general == GeneralProfile(500, "output", false, true)
    ensures Lower(name) == "arabic" ==> profile.order == Pipeline.OrderOptions(true, 0.4)
    ensures Lower(name) == "arabic" ==> profile.cv == ArabicCv(cvDefaults)
    ensures Lower(name) == "arabic" ==>
              profile.ocr == BaseProfile(cvDefaults).ocr.(digitsPass := true, digitsHeightRatio := 0.1,
                                                          digitsPassScope := "all", digitsReplace := true)
    ensures Lower(name) != "arabic" ==> forall h :: !Pipeline.DigitsPassEnabled(OcrOptionsOf(profile.ocr), h)
    ensures Lower(name) == "arabic" ==> forall h :: Pipeline.DigitsPassEnabled(OcrOptionsOf(profile.ocr), h)
  {
    profile := BaseProfile(cvDefaults);
    if Lower(name) != "arabic" {
      forall h ensures !Pipeline.DigitsPassEnabled(OcrOptionsOf(profile.ocr), h) {
        BaseProfileNoDigitsPass(cvDefaults, h);
      }
      return;
    }
    profile := profile.(order := profile.order.(rtl := true, columnOverlapRatio := 0.4));
    profile := profile.(cv := profile.cv.(
      minArea := Max(30, cvDefaults.minArea),
      kernelWidth := Max(8, cvDefaults.kernelWidth - 2),
      kernelHeight := cvDefaults.kernelHeight,
      adaptiveC := Max(10, cvDefaults.adaptiveC - 3),
      lineLengthRatio := 0.1,
      lineThickness := Max(2, cvDefaults.lineThickness),
      borderMargin := Max(3, cvDefaults.borderMargin),
      maxAreaRatio := 0.75,
      mergeLinefree := true,
      mergeIouThreshold := 0.7,
      mergeAreaRatio := 0.2));
    profile := profile.(ocr := profile.ocr.(
      digitsPass := true,
      digitsHeightRatio := 0.1,
      digitsWhitelist := DigitsWhitelist,
      digitsPassScope := "all",
      digitsReplace := true));
    forall h ensures Pipeline.DigitsPassEnabled(OcrOptionsOf(profile.ocr), h) {
      ArabicDigitsPassEverywhere(profile.ocr, profile.ocr.digitsPassScope, h);
    }
  }

  function Max(a: int, b: int): int {
    if a >= b then a else b
  }

  /** The detector settings of the `arabic` profile: never below the floors it
      sets, never below the defaults where it takes a maximum with them, the
      kernel height, block size and line removal switch kept as given, and the
      line-free merge switched on. */
  function ArabicCv(cvDefaults: CvDetector.SimpleCvConfig): (cv: CvDetector.SimpleCvConfig)
    ensures cv.minArea >= 30 && cv.minArea >= cvDefaults.minArea
    ensures cv.kernelWidth >= 8 && cv.kernelWidth >= cvDefaults.kernelWidth - 2
    ensures cv.adaptiveC >= 10 && cv.lineThickness >= 2 && cv.borderMargin >= 3
    ensures cv.lineThickness >= cvDefaults.lineThickness && cv.borderMargin >= cvDefaults.borderMargin
    ensures cv.kernelHeight == cvDefaults.kernelHeight && cv.adaptiveBlockSize == cvDefaults.adaptiveBlockSize
    ensures cv.removeLines == cvDefaults.removeLines
    ensures cv.mergeLinefree
  {
    cvDefaults.(minArea := Max(30, cvDefaults.minArea),
                kernelWidth := Max(8, cvDefaults.kernelWidth - 2),
                adaptiveC := Max(10, cvDefaults.adaptiveC - 3),
                lineLengthRatio := 0.1,
                lineThickness := Max(2, cvDefaults.lineThickness),
                borderMargin := Max(3, cvDefaults.borderMargin),
                maxAreaRatio := 0.75,
                mergeLinefree := true,
                mergeIouThreshold := 0.7,
                mergeAreaRatio := 0.2)
  }

  /** With the detector's own defaults the `arabic` profile keeps the minimum
      area at 50, narrows the kernel from 10 to 8, lowers the threshold constant
      from 15 to 12 and raises the line thickness and border margin. */
  lemma ArabicCvFromDefaults()
    ensures var cv := ArabicCv(CvDetector.DefaultConfig);
            cv.minArea == 50 && cv.kernelWidth == 8 && cv.kernelHeight == 3 &&
            cv.adaptiveC == 12 && cv.lineThickness == 2 && cv.borderMargin == 3
  {
  }

  // ---------------------------------------------------------------------------
  // from a profile to the controller's options

  /** The `ocr_options` that `main` hands to the controller when neither the
      command line nor the configuration file overrides the profile. */
  function OcrOptionsOf(ocr: OcrProfile): Pipeline.OcrOptions {
    Pipeline.OcrOptions(ocr.cropPadding, Some(ocr.psm), Some(ocr.linePsm), ocr.linePsmHeightRatio,
                        ocr.digitsPass, ocr.digitsPassScope, ocr.digitsHeightRatio, ocr.digitsReplace,
                        ocr.digitsMinChars)
  }

  /** The base profile never runs the digits pass. */
  lemma BaseProfileNoDigitsPass(cvDefaults: CvDetector.SimpleCvConfig, heightRatio: real)
    ensures !Pipeline.DigitsPassEnabled(OcrOptionsOf(BaseProfile(cvDefaults).ocr), heightRatio)
  {
  }

  /** The `arabic` profile runs the digits pass on every region, whatever its
      height. */
  lemma ArabicDigitsPassEverywhere(ocr: OcrProfile, scope: string, heightRatio: real)
    requires ocr.digitsPass && ocr.digitsPassScope == scope && scope == "all"
    ensures Pipeline.DigitsPassEnabled(OcrOptionsOf(ocr), heightRatio)
  {
    assert Lower(scope) == "all" by {
      assert forall k :: 0 <= k < |scope| ==> LowerChar(scope[k]) == scope[k];
    }
  }

  /** The digits whitelist admits exactly the characters the digit-group
      reconciliation treats as digits or separators. */
  lemma DigitsWhitelistChars(c: char)
    ensures c in DigitsWhitelist <==> Reconcile.IsDigitOrSep(c)
  {
    var ascii := "0123456789-/:.,";
    assert DigitsWhitelist == ascii + OcrUtils.ArabicIndic + OcrUtils.EasternArabicIndic;
    AsciiWhitelist(ascii, c);
    OcrUtils.CodeRangeMember(0x0660, 0x066A, c);
    OcrUtils.CodeRangeMember(0x06F0, 0x06FA, c);
  }

  /** The ASCII head of the whitelist: the ten digits and the five separators. */
  lemma AsciiWhitelist(ascii: string, c: char)
    requires ascii == "0123456789-/:.,"
    ensures c in ascii <==> ('0' <= c <= '9') || c == '-' || c == '/' || c == ':' || c == '.' || c == ','
  {
    if '0' <= c <= '9' {
      assert ascii[c as int - '0' as int] == c;
    } else if c == '-' {
      assert ascii[10] == c;
    } else if c == '/' {
      assert ascii[11] == c;
    } else if c == ':' {
      assert ascii[12] == c;
    } else if c == '.' {
      assert ascii[13] == c;
    } else if c == ',' {
      assert ascii[14] == c;
    }
  }
}
