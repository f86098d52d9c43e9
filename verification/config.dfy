/** `config_utils`: reading one typed value out of an optional INI configuration,
    and the truthiness rule for boolean settings. */
module ConfigUtils {
  import opened Wrappers
  import opened Text

  /** A parsed configuration: section name to option name to raw string value. */
  type Config = map<string, map<string, string>>

  /** `config.has_option(section, key)`. */
  predicate HasOption(config: Config, section: string, key: string) {
    section in config && key in config[section]
  }

  /** `get_config_value`: the default when there is no configuration, when the
      option is absent and when its value is the empty string; otherwise the
      value passed through `cast`. */
  function GetConfigValue<T>(config: Option<Config>, section: string, key: string, default: T, cast: string -> T): (r: T)
    ensures config.None? ==> r == default
    ensures config.Some? && !HasOption(config.value, section, key) ==> r == default
    ensures config.Some? && HasOption(config.value, section, key) ==>
              r == (if config.value[section][key] == "" then default else cast(config.value[section][key]))
  {
    if config.None? then default
    else if !HasOption(config.value, section, key) then default
    else
      var value := config.value[section][key];
      if value == "" then default else cast(value)
  }

  /** The default is overridden only by a non-empty value that is present. */
  lemma GetConfigValueOverride<T>(config: Option<Config>, section: string, key: string, default: T, cast: string -> T)
    requires GetConfigValue(config, section, key, default, cast) != default
    ensures config.Some? && HasOption(config.value, section, key) && config.value[section][key] != ""
    ensures GetConfigValue(config, section, key, default, cast) == cast(config.value[section][key])
  {
  }

  /** The words `to_bool` accepts, after stripping and lower-casing. */
  const TrueWords: set<string> := {"1", "true", "yes", "y", "on"}

  /** `to_bool`. */
  function ToBool(value: string): (r: bool)
    ensures r <==> Lower(Strip(value)) in TrueWords
  {
    Lower(Strip(value)) in TrueWords
  }

  /** `to_bool` ignores ASCII case. */
  lemma ToBoolIgnoresCase(s: string, t: string)
    requires Lower(s) == Lower(t)
    ensures ToBool(s) == ToBool(t)
  {
    LowerStrip(s);
    LowerStrip(t);
  }

  /** `to_bool` ignores surrounding whitespace. */
  lemma ToBoolIgnoresPadding(before: string, s: string, after: string)
    requires AllSpace(before) && AllSpace(after)
    ensures ToBool(before + s + after) == ToBool(s)
  {
    StripPadded(before, s, after);
  }

  /** For a word without whitespace or upper-case letters `to_bool` is plain
      membership in the accepted words. */
  lemma ToBoolPlainWord(word: string)
    requires NoSpace(word)
    requires forall i :: 0 <= i < |word| ==> !('A' <= word[i] <= 'Z')
    ensures ToBool(word) <==> word in TrueWords
  {
    StripNoSpace(word);
    LowerIdentity(word);
  }

  lemma LowerIdentity(word: string)
    requires forall i :: 0 <= i < |word| ==> !('A' <= word[i] <= 'Z')
    ensures Lower(word) == word
  {
    assert forall i :: 0 <= i < |word| ==> Lower(word)[i] == word[i];
  }

  /** `0`, `false`, `no`, `off` and the empty string are false. */
  lemma ToBoolFalseWords(s: string)
    requires s in {"0", "false", "no", "off", ""}
    ensures !ToBool(s)
  {
    assert NoSpace(s);
    assert forall i :: 0 <= i < |s| ==> !('A' <= s[i] <= 'Z');
    assert s !in TrueWords;
    ToBoolPlainWord(s);
  }

  lemma TrueWordsNoSpace(w: string)
    requires w in TrueWords
    ensures NoSpace(w)
  {
  }

  /** Upper-case and padded spellings of an accepted word are true. */
  lemma ToBoolTrueWord(before: string, word: string, after: string)
    requires AllSpace(before) && AllSpace(after)
    requires Lower(word) in TrueWords
    ensures ToBool(before + word + after)
  {
    StripPadded(before, word, after);
    TrueWordsNoSpace(Lower(word));
    forall i | 0 <= i < |word| ensures !IsSpace(word[i]) {
      LowerCharSpace(word[i]);
    }
    StripNoSpace(word);
  }
}
