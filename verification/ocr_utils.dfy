/** The string side of `ocr_image`: the expansion of the digit placeholders in a
    character whitelist, and the assembly of the Tesseract configuration string
    from the page segmentation mode, the engine mode, the whitelist and any extra
    options. The image preprocessing and the engine call are not modelled. */
module OcrUtils {
  import opened Wrappers
  import opened Text

  /** `"".join(chr(code) for code in range(lo, hi))`. */
  function CodeRange(lo: int, hi: int): (r: string)
    requires 0 <= lo <= hi <= 0xD800
    ensures |r| == hi - lo
    ensures forall i :: 0 <= i < |r| ==> r[i] as int == lo + i
    decreases hi - lo
  {
    if lo == hi then [] else [lo as char] + CodeRange(lo + 1, hi)
  }

  /** The Arabic-Indic digits U+0660 to U+0669. */
  const ArabicIndic: string := CodeRange(0x0660, 0x066A)

  /** The extended (Eastern) Arabic-Indic digits U+06F0 to U+06F9. */
  const EasternArabicIndic: string := CodeRange(0x06F0, 0x06FA)

  const ArabicPlaceholder: string := "{ARABIC_INDIC}"
  const EasternPlaceholder: string := "{EASTERN_ARABIC_INDIC}"

  /** A character is in a code range exactly when its code point lies in it. */
  lemma CodeRangeMember(lo: int, hi: int, c: char)
    requires 0 <= lo <= hi <= 0xD800
    ensures c in CodeRange(lo, hi) <==> lo <= c as int < hi
  {
    var r := CodeRange(lo, hi);
    if lo <= c as int < hi {
      assert r[c as int - lo] == c;
    }
  }

  /** Each placeholder stands for exactly ten digits, and together they are the
      non-ASCII digits of the digit test. */
  lemma PlaceholderDigits()
    ensures |ArabicIndic| == 10 && |EasternArabicIndic| == 10
    ensures forall i :: 0 <= i < 10 ==> ArabicIndic[i] as int == 0x0660 + i && EasternArabicIndic[i] as int == 0x06F0 + i
    ensures forall c :: c in ArabicIndic + EasternArabicIndic <==> IsDigit(c) && !('0' <= c <= '9')
  {
    forall c ensures c in ArabicIndic + EasternArabicIndic <==> IsDigit(c) && !('0' <= c <= '9') {
      CodeRangeMember(0x0660, 0x066A, c);
      CodeRangeMember(0x06F0, 0x06FA, c);
    }
  }

  /** A pattern whose first character does not occur in `s` does not occur in `s`. */
  lemma AbsentByFirst(s: string, pat: string)
    requires pat != [] && pat[0] !in s
    ensures forall i :: !OccursAt(s, pat, i)
  {
    forall i ensures !OccursAt(s, pat, i) {
      if 0 <= i && i + |pat| <= |s| {
        assert s[i..i + |pat|][0] == s[i];
      }
    }
  }

  /** `_expand_whitelist`: a missing or empty whitelist is returned as it is;
      otherwise each `{ARABIC_INDIC}` is replaced by the Arabic-Indic digits and
      then each `{EASTERN_ARABIC_INDIC}` by the Eastern ones. */
  function ExpandWhitelist(whitelist: Option<string>): (r: Option<string>)
    ensures whitelist.None? || whitelist == Some("") ==> r == whitelist
    ensures r.Some? <==> whitelist.Some?
  {
    if whitelist.None? || whitelist.value == "" then whitelist
    else Some(ReplaceAll(ReplaceAll(whitelist.value, ArabicPlaceholder, ArabicIndic), EasternPlaceholder, EasternArabicIndic))
  }

  /** A whitelist with neither placeholder is returned unchanged. */
  lemma ExpandWithoutPlaceholders(whitelist: string)
    requires forall i :: !OccursAt(whitelist, ArabicPlaceholder, i)
    requires forall i :: !OccursAt(whitelist, EasternPlaceholder, i)
    ensures ExpandWhitelist(Some(whitelist)) == Some(whitelist)
  {
    if whitelist != "" {
      ReplaceAllAbsent(whitelist, ArabicPlaceholder, ArabicIndic);
      ReplaceAllAbsent(whitelist, EasternPlaceholder, EasternArabicIndic);
    }
  }

  /** `{ARABIC_INDIC}` alone expands to exactly the ten Arabic-Indic digits. */
  lemma ExpandArabicPlaceholder()
    ensures ExpandWhitelist(Some(ArabicPlaceholder)) == Some(ArabicIndic)
  {
    ReplaceAllWhole(ArabicPlaceholder, ArabicIndic);
    assert EasternPlaceholder[0] !in ArabicIndic;
    AbsentByFirst(ArabicIndic, EasternPlaceholder);
    ReplaceAllAbsent(ArabicIndic, EasternPlaceholder, EasternArabicIndic);
  }

  /** `{EASTERN_ARABIC_INDIC}` alone expands to exactly the ten Eastern digits. */
  lemma ExpandEasternPlaceholder()
    ensures ExpandWhitelist(Some(EasternPlaceholder)) == Some(EasternArabicIndic)
  {
    var e := EasternPlaceholder;
    forall i ensures !OccursAt(e, ArabicPlaceholder, i) {
      if 0 <= i && i + |ArabicPlaceholder| <= |e| {
        var window := e[i..i + |ArabicPlaceholder|];
        assert window[0] == e[i] && window[1] == e[i + 1];
        assert e[i] == '{' ==> i == 0;
      }
    }
    ReplaceAllAbsent(e, ArabicPlaceholder, ArabicIndic);
    ReplaceAllWhole(e, EasternArabicIndic);
  }

  // ---------------------------------------------------------------------------
  // the configuration string of ocr_image

  /** The option names of the configuration string. */
  const PsmOption: string := "--psm "
  const OemOption: string := "--oem "
  const WhitelistOption: string := "-c tessedit_char_whitelist="

  /** The parts of the configuration, in order: `--psm N` when a mode is given,
      `--oem N` when an engine mode is given, the whitelist option when the
      (already expanded) whitelist is non-empty, and the extra options when
      non-empty. */
  function ConfigParts(psm: Option<int>, oem: Option<int>, expanded: Option<string>, extraConfig: Option<string>): (r: seq<string>)
    ensures |r| == |Present(psm)| + |Present(oem)| + |NonEmpty(expanded)| + |NonEmpty(extraConfig)|
    ensures forall k :: 0 <= k < |r| ==> r[k] != ""
    ensures psm.Some? ==> r[0] == PsmOption + IntToString(psm.value)
    ensures psm.None? && oem.Some? ==> r[0] == OemOption + IntToString(oem.value)
  {
    var psmPart := Part(PsmOption, Present(psm));
    var modes := psmPart + Part(OemOption, Present(oem));
    var withWhitelist := modes + Part(WhitelistOption, NonEmpty(expanded));
    NonEmptyParts(psmPart, Part(OemOption, Present(oem)));
    NonEmptyParts(modes, Part(WhitelistOption, NonEmpty(expanded)));
    NonEmptyParts(withWhitelist, Part("", NonEmpty(extraConfig)));
    withWhitelist + Part("", NonEmpty(extraConfig))
  }

  lemma NonEmptyParts(a: seq<string>, b: seq<string>)
    requires forall k :: 0 <= k < |a| ==> a[k] != ""
    requires forall k :: 0 <= k < |b| ==> b[k] != ""
    ensures forall k :: 0 <= k < |a + b| ==> (a + b)[k] != ""
  {
  }

  /** The number given, as a zero- or one-element sequence of its decimal form. */
  function Present(n: Option<int>): (r: seq<string>)
    ensures |r| == (if n.Some? then 1 else 0)
    ensures n.Some? ==> r == [IntToString(n.value)]
  {
    if n.Some? then [IntToString(n.value)] else []
  }

  /** Python truthiness of an optional string: the string when it is non-empty. */
  function NonEmpty(s: Option<string>): (r: seq<string>)
    ensures |r| <= 1 && (r != [] <==> s.Some? && s.value != "")
    ensures r != [] ==> r[0] == s.value
  {
    if s.Some? && s.value != "" then [s.value] else []
  }

  /** One configuration part, the option name followed by its value, when the
      value is present. */
  function Part(name: string, value: seq<string>): (r: seq<string>)
    requires |value| <= 1
    requires name == "" ==> forall k :: 0 <= k < |value| ==> value[k] != ""
    ensures |r| == |value|
    ensures value != [] ==> r == [name + value[0]] && name + value[0] != ""
  {
    if value == [] then [] else [name + value[0]]
  }

  /** The configuration assembly of `ocr_image`: the whitelist is expanded, then
      the parts are joined by single spaces. */
  method BuildConfig(psm: Option<int>, oem: Option<int>, whitelist: Option<string>, extraConfig: Option<string>)
    returns (config: string)
    ensures config == JoinWith(" ", ConfigParts(psm, oem, ExpandWhitelist(whitelist), extraConfig))
  {
    var expanded := ExpandWhitelist(whitelist);
    config := AssembleConfig(psm, oem, expanded, extraConfig);
  }

  /** The part list of `ocr_image`, grown one option at a time. */
  method AssembleConfig(psm: Option<int>, oem: Option<int>, expanded: Option<string>, extraConfig: Option<string>)
    returns (config: string)
    ensures config == JoinWith(" ", ConfigParts(psm, oem, expanded, extraConfig))
  {
    var configParts: seq<string> := [];
    if psm.Some? {
      configParts := configParts + [PsmOption + IntToString(psm.value)];
    }
    assert configParts == Part(PsmOption, Present(psm));
    if oem.Some? {
      configParts := configParts + [OemOption + IntToString(oem.value)];
    }
    assert configParts == Part(PsmOption, Present(psm)) + Part(OemOption, Present(oem));
    if expanded.Some? && expanded.value != "" {
      configParts := configParts + [WhitelistOption + expanded.value];
    }
    assert configParts == Part(PsmOption, Present(psm)) + Part(OemOption, Present(oem)) +
                          Part(WhitelistOption, NonEmpty(expanded));
    if extraConfig.Some? && extraConfig.value != "" {
      assert "" + extraConfig.value == extraConfig.value;
      configParts := configParts + [extraConfig.value];
    }
    assert configParts == ConfigParts(psm, oem, expanded, extraConfig);
    config := JoinWith(" ", configParts);
  }

  /** With nothing to pass the configuration string is empty. */
  lemma ConfigEmpty()
    ensures JoinWith(" ", ConfigParts(None, None, ExpandWhitelist(None), None)) == ""
  {
  }

  /** The page segmentation mode, when given, comes first. */
  lemma ConfigStartsWithPsm(psm: int, oem: Option<int>, whitelist: Option<string>, extraConfig: Option<string>)
    ensures var config := JoinWith(" ", ConfigParts(Some(psm), oem, ExpandWhitelist(whitelist), extraConfig));
            var first := "--psm " + IntToString(psm);
            |first| <= |config| && config[..|first|] == first
  {
    JoinWithFirst(" ", ConfigParts(Some(psm), oem, ExpandWhitelist(whitelist), extraConfig));
  }

  /** An `{ARABIC_INDIC}` whitelist on its own reaches Tesseract as the single
      option admitting the ten Arabic-Indic digits. */
  lemma ConfigArabicWhitelist()
    ensures JoinWith(" ", ConfigParts(None, None, ExpandWhitelist(Some(ArabicPlaceholder)), None)) == "-c tessedit_char_whitelist=" + ArabicIndic
  {
    ExpandArabicPlaceholder();
    PlaceholderDigits();
  }

  /** A part is omitted when its value is missing or empty: a missing engine
      mode, whitelist or extra options give the configuration of the mode alone. */
  lemma ConfigPsmOnly(psm: int, whitelist: Option<string>, extraConfig: Option<string>)
    requires whitelist.None? || whitelist == Some("")
    requires extraConfig.None? || extraConfig == Some("")
    ensures JoinWith(" ", ConfigParts(Some(psm), None, ExpandWhitelist(whitelist), extraConfig)) == "--psm " + IntToString(psm)
  {
  }
}
