/** The module-level string scanners of the pipeline controller: character
    counts, the extraction of digit groups from the digits-only OCR pass, and
    their substitution into the primary text.

    A "run" is a maximal block of consecutive digit-or-separator characters; a
    run "has a digit" when at least one of its characters is a digit. */
module Reconcile {
  import opened Text
  import opened Seqs

  /** `_is_digit_or_sep`: a digit or one of `. , - / :`. */
  predicate IsDigitOrSep(c: char) {
    IsDigit(c) || c == '.' || c == ',' || c == '-' || c == '/' || c == ':'
  }

  predicate AllDigitOrSep(s: string) {
    forall i :: 0 <= i < |s| ==> IsDigitOrSep(s[i])
  }

  predicate HasDigit(s: string) {
    exists i :: 0 <= i < |s| && IsDigit(s[i])
  }

  /** Extending a string by one character. */
  lemma Snoc(s: string, c: char)
    ensures HasDigit(s + [c]) <==> HasDigit(s) || IsDigit(c)
    ensures AllDigitOrSep(s + [c]) <==> AllDigitOrSep(s) && IsDigitOrSep(c)
  {
    assert forall i :: 0 <= i < |s| ==> (s + [c])[i] == s[i];
    assert (s + [c])[|s|] == c;
  }

  // ---------------------------------------------------------------------------
  // _count_digits, _count_letters

  /** `_count_digits`. */
  function CountDigits(s: string): (n: nat)
    ensures n <= |s|
    ensures n > 0 <==> HasDigit(s)
  {
    if s == [] then 0
    else
      var n := CountDigits(s[..|s| - 1]) + (if IsDigit(s[|s| - 1]) then 1 else 0);
      assert forall i :: 0 <= i < |s| - 1 ==> s[..|s| - 1][i] == s[i];
      n
  }

  /** `_count_letters`. */
  function CountLetters(s: string): (n: nat)
    ensures n <= |s|
    ensures n == 0 <==> forall i :: 0 <= i < |s| ==> !IsAlpha(s[i])
  {
    if s == [] then 0
    else
      var n := CountLetters(s[..|s| - 1]) + (if IsAlpha(s[|s| - 1]) then 1 else 0);
      assert forall i :: 0 <= i < |s| - 1 ==> s[..|s| - 1][i] == s[i];
      n
  }

  /** Counting is additive over concatenation. */
  lemma {:induction false} CountAppend(a: string, b: string)
    ensures CountDigits(a + b) == CountDigits(a) + CountDigits(b)
    ensures CountLetters(a + b) == CountLetters(a) + CountLetters(b)
  {
    if b == [] {
      assert a + b == a;
    } else {
      assert (a + b)[..|a + b| - 1] == a + b[..|b| - 1];
      CountAppend(a, b[..|b| - 1]);
    }
  }

  // ---------------------------------------------------------------------------
  // runs

  /** The length of the run at the start of `s` (0 when `s` does not start with a
      digit or separator). */
  function RunLength(s: string): (n: nat)
    ensures n <= |s|
    ensures AllDigitOrSep(s[..n])
    ensures n == |s| || !IsDigitOrSep(s[n])
  {
    if s != [] && IsDigitOrSep(s[0]) then
      var n := 1 + RunLength(s[1..]);
      assert forall i :: 1 <= i < n ==> s[..n][i] == s[1..][..n - 1][i - 1];
      n
    else 0
  }

  /** A block of digits and separators followed by the end or by another
      character is the whole run. */
  lemma {:induction false} RunLengthIs(s: string, n: nat)
    requires n <= |s| && AllDigitOrSep(s[..n])
    requires n == |s| || !IsDigitOrSep(s[n])
    ensures RunLength(s) == n
  {
    if n > 0 {
      assert s[1..][..n - 1] == s[..n][1..];
      RunLengthIs(s[1..], n - 1);
    }
  }

  /** Digit and separator characters are never whitespace, so a run is its own strip. */
  lemma RunNoSpace(s: string)
    requires AllDigitOrSep(s)
    ensures NoSpace(s) && Strip(s) == s
  {
    forall i | 0 <= i < |s| ensures !IsSpace(s[i]) {
      var c := s[i];
      assert IsDigitOrSep(c);
    }
    StripNoSpace(s);
  }

  // ---------------------------------------------------------------------------
  // _extract_digit_groups

  /** The groups `_extract_digit_groups` finds: the runs that have a digit, in order.
      (The source strips each group; a run contains no whitespace, so this is the
      identity, see `RunNoSpace`.) */
  function Groups(t: string): seq<string>
    decreases |t|
  {
    if t == [] then []
    else if !IsDigitOrSep(t[0]) then Groups(t[1..])
    else
      var n := RunLength(t);
      (if HasDigit(t[..n]) then [t[..n]] else []) + Groups(t[n..])
  }

  /** A run followed by another character contributes at most one group. */
  lemma GroupsAfterRun(run: string, c: char, rest: string)
    requires AllDigitOrSep(run) && !IsDigitOrSep(c)
    ensures Groups(run + [c] + rest) == (if run != [] && HasDigit(run) then [run] else []) + Groups(rest)
  {
    var t := run + [c] + rest;
    if run == [] {
      assert t[1..] == rest;
    } else {
      assert t[..|run|] == run;
      RunLengthIs(t, |run|);
      assert t[|run|..] == [c] + rest;
      assert ([c] + rest)[1..] == rest;
    }
  }

  /** A run at the end of the text contributes at most one group. */
  lemma GroupsOfRun(run: string)
    requires AllDigitOrSep(run)
    ensures Groups(run) == (if run != [] && HasDigit(run) then [run] else [])
  {
    if run != [] {
      assert run[..|run|] == run;
      RunLengthIs(run, |run|);
      assert run[|run|..] == [];
    }
  }

  /** The scan's step over a digit or separator: the run grows. */
  lemma ExtractRunStep(groups: seq<string>, current: string, text: string, i: nat)
    requires i < |text| && IsDigitOrSep(text[i]) && AllDigitOrSep(current)
    requires groups + Groups(current + text[i..]) == Groups(text)
    ensures AllDigitOrSep(current + [text[i]])
    ensures HasDigit(current + [text[i]]) <==> HasDigit(current) || IsDigit(text[i])
    ensures groups + Groups((current + [text[i]]) + text[i + 1..]) == Groups(text)
  {
    Snoc(current, text[i]);
    SplitAt(current, text, i);
  }

  /** The scan's step over any other character: the run so far closes. */
  lemma ExtractOtherStep(groups: seq<string>, current: string, text: string, i: nat)
    requires i < |text| && !IsDigitOrSep(text[i]) && AllDigitOrSep(current)
    requires groups + Groups(current + text[i..]) == Groups(text)
    ensures (if current != [] && HasDigit(current) then groups + [current] else groups) + Groups([] + text[i + 1..]) == Groups(text)
  {
    GroupsAfterRunAt(current, text, i);
    AppendAssoc(groups, if current != [] && HasDigit(current) then [current] else [], Groups(text[i + 1..]));
    EmptyAppend(text[i + 1..]);
  }

  /** `GroupsAfterRun` for the character at position `i` of a text. */
  lemma GroupsAfterRunAt(current: string, text: string, i: nat)
    requires i < |text| && !IsDigitOrSep(text[i]) && AllDigitOrSep(current)
    ensures Groups(current + text[i..]) == (if current != [] && HasDigit(current) then [current] else []) + Groups(text[i + 1..])
  {
    SplitAt(current, text, i);
    GroupsAfterRun(current, text[i], text[i + 1..]);
  }

  lemma SplitAt(current: string, text: string, i: nat)
    requires i < |text|
    ensures current + text[i..] == current + [text[i]] + text[i + 1..]
  {
    assert text[i..] == [text[i]] + text[i + 1..];
  }

  /** The end of the scan: the last run closes. */
  lemma ExtractLastStep(groups: seq<string>, current: string, text: string)
    requires AllDigitOrSep(current)
    requires groups + Groups(current + text[|text|..]) == Groups(text)
    ensures (if current != [] && HasDigit(current) then groups + [current] else groups) == Groups(text)
  {
    assert current + text[|text|..] == current;
    GroupsOfRun(current);
  }

  /** `_extract_digit_groups`. */
  method ExtractDigitGroups(text: string) returns (groups: seq<string>)
    ensures groups == Groups(text)
  {
    groups := [];
    var current: string := [];
    var hasDigit := false;
    assert current + text[0..] == text;
    for i := 0 to |text|
      invariant AllDigitOrSep(current)
      invariant hasDigit == HasDigit(current)
      invariant groups + Groups(current + text[i..]) == Groups(text)
    {
      var ch := text[i];
      if IsDigitOrSep(ch) {
        ExtractRunStep(groups, current, text, i);
        current := current + [ch];
        hasDigit := hasDigit || IsDigit(ch);
      } else {
        ExtractOtherStep(groups, current, text, i);
        if |current| > 0 && hasDigit {
          RunNoSpace(current);
          groups := groups + [Strip(current)];
        }
        current := [];
        hasDigit := false;
      }
    }
    ExtractLastStep(groups, current, text);
    if |current| > 0 && hasDigit {
      RunNoSpace(current);
      groups := groups + [Strip(current)];
    }
  }

  /** Every group is non-empty, made of digits and separators only, and holds a
      digit. */
  lemma {:induction false} GroupsShape(t: string)
    ensures forall k :: 0 <= k < |Groups(t)| ==>
              Groups(t)[k] != [] && AllDigitOrSep(Groups(t)[k]) && HasDigit(Groups(t)[k])
    decreases |t|
  {
    if t != [] {
      if !IsDigitOrSep(t[0]) {
        GroupsShape(t[1..]);
      } else {
        GroupsShape(t[RunLength(t)..]);
      }
    }
  }

  lemma NoDigitTake(t: string, k: nat)
    requires !HasDigit(t) && k <= |t|
    ensures !HasDigit(t[..k])
  {
    assert forall i :: 0 <= i < k ==> t[..k][i] == t[i];
  }

  lemma NoDigitDrop(t: string, k: nat)
    requires !HasDigit(t) && k <= |t|
    ensures !HasDigit(t[k..])
  {
    assert forall i :: 0 <= i < |t| - k ==> t[k..][i] == t[i + k];
  }

  /** Text with no digit yields no group. */
  lemma {:induction false} GroupsNoDigit(t: string)
    requires !HasDigit(t)
    ensures Groups(t) == []
    decreases |t|
  {
    if t != [] {
      if !IsDigitOrSep(t[0]) {
        NoDigitDrop(t, 1);
        GroupsNoDigit(t[1..]);
      } else {
        var n := RunLength(t);
        NoDigitTake(t, n);
        NoDigitDrop(t, n);
        GroupsNoDigit(t[n..]);
      }
    }
  }

  // ---------------------------------------------------------------------------
  // _replace_digit_groups

  /** The scan of `_replace_digit_groups` over `t` with the groups `gs` still
      unused: every other character is copied, each run that has a digit takes the
      next unused group, and runs without a digit or beyond the last group are
      copied. */
  function Replaced(t: string, gs: seq<string>): string
    decreases |t|
  {
    if t == [] then []
    else if !IsDigitOrSep(t[0]) then [t[0]] + Replaced(t[1..], gs)
    else
      var n := RunLength(t);
      if HasDigit(t[..n]) && gs != [] then gs[0] + Replaced(t[n..], gs[1..])
      else t[..n] + Replaced(t[n..], gs)
  }

  /** What `_replace_digit_groups(text, digits_text)` returns. */
  function ReplaceDigitGroupsSpec(text: string, digitsText: string): string {
    if Groups(digitsText) == [] then text else Replaced(text, Groups(digitsText))
  }

  /** One run of the scan. */
  lemma RunStep(t: string, n: nat, gs: seq<string>)
    requires 1 <= n <= |t| && AllDigitOrSep(t[..n])
    requires n == |t| || !IsDigitOrSep(t[n])
    ensures Replaced(t, gs) ==
              if HasDigit(t[..n]) && gs != [] then gs[0] + Replaced(t[n..], gs[1..])
              else t[..n] + Replaced(t[n..], gs)
  {
    RunLengthIs(t, n);
  }

  /** The run scan's step: one more digit or separator joins the run. */
  lemma RunGrows(text: string, start: nat, i: nat)
    requires start < i < |text| && AllDigitOrSep(text[start..i]) && IsDigitOrSep(text[i])
    ensures AllDigitOrSep(text[start..i + 1])
    ensures HasDigit(text[start..i + 1]) <==> HasDigit(text[start..i]) || IsDigit(text[i])
  {
    assert text[start..i + 1] == text[start..i] + [text[i]];
    Snoc(text[start..i], text[i]);
  }

  /** Emitting one more piece of the output. */
  lemma EmitStep(result: seq<string>, piece: string, rest: string, whole: string)
    requires JoinWith("", result) + (piece + rest) == whole
    ensures JoinWith("", result + [piece]) + rest == whole
  {
    JoinEmptySepSnoc(result, piece);
  }

  /** The substitution's step over a whole run `text[start..i]`. */
  lemma ReplaceRunStep(result: seq<string>, text: string, groups: seq<string>, index: nat, start: nat, i: nat)
    requires start < i <= |text| && index <= |groups|
    requires AllDigitOrSep(text[start..i]) && (i == |text| || !IsDigitOrSep(text[i]))
    requires JoinWith("", result) + Replaced(text[start..], groups[index..]) == Replaced(text, groups)
    ensures HasDigit(text[start..i]) && index < |groups| ==>
              JoinWith("", result + [groups[index]]) + Replaced(text[i..], groups[index + 1..]) == Replaced(text, groups)
    ensures !(HasDigit(text[start..i]) && index < |groups|) ==>
              JoinWith("", result + [text[start..i]]) + Replaced(text[i..], groups[index..]) == Replaced(text, groups)
  {
    var t, n, gs := text[start..], i - start, groups[index..];
    var run := text[start..i];
    assert t[..n] == run;
    assert t[n..] == text[i..];
    RunStep(t, n, gs);
    assert gs != [] <==> index < |groups|;
    if HasDigit(run) && index < |groups| {
      assert gs[1..] == groups[index + 1..];
      EmitStep(result, groups[index], Replaced(text[i..], groups[index + 1..]), Replaced(text, groups));
    } else {
      EmitStep(result, run, Replaced(text[i..], gs), Replaced(text, groups));
    }
  }

  /** The substitution's step over any other character: it is copied. */
  lemma ReplaceOtherStep(result: seq<string>, text: string, groups: seq<string>, index: nat, i: nat)
    requires i < |text| && index <= |groups| && !IsDigitOrSep(text[i])
    requires JoinWith("", result) + Replaced(text[i..], groups[index..]) == Replaced(text, groups)
    ensures JoinWith("", result + [[text[i]]]) + Replaced(text[i + 1..], groups[index..]) == Replaced(text, groups)
  {
    assert text[i..][1..] == text[i + 1..];
    EmitStep(result, [text[i]], Replaced(text[i + 1..], groups[index..]), Replaced(text, groups));
  }

  /** The inner scan of `_replace_digit_groups`: from a digit or separator at
      `start`, the end of its run and whether the run holds a digit. */
  method ScanRun(text: string, start: nat) returns (i: nat, hasDigit: bool)
    requires start < |text| && IsDigitOrSep(text[start])
    ensures start < i <= |text| && AllDigitOrSep(text[start..i])
    ensures i == |text| || !IsDigitOrSep(text[i])
    ensures hasDigit == HasDigit(text[start..i])
  {
    hasDigit := IsDigit(text[start]);
    i := start + 1;
    assert text[start..i] == [text[start]];
    while i < |text| && IsDigitOrSep(text[i])
      invariant start < i <= |text|
      invariant AllDigitOrSep(text[start..i])
      invariant hasDigit == HasDigit(text[start..i])
    {
      RunGrows(text, start, i);
      if IsDigit(text[i]) {
        hasDigit := true;
      }
      i := i + 1;
    }
  }

  /** `_replace_digit_groups`. */
  method ReplaceDigitGroups(text: string, digitsText: string) returns (r: string)
    ensures r == ReplaceDigitGroupsSpec(text, digitsText)
  {
    var groups := ExtractDigitGroups(digitsText);
    if |groups| == 0 {
      return text;
    }
    var result: seq<string> := [];
    var index := 0;
    var i := 0;
    assert text[0..] == text && groups[0..] == groups;
    while i < |text|
      invariant 0 <= i <= |text| && 0 <= index <= |groups|
      invariant JoinWith("", result) + Replaced(text[i..], groups[index..]) == Replaced(text, groups)
    {
      var ch := text[i];
      if IsDigitOrSep(ch) {
        var start := i;
        var hasDigit;
        i, hasDigit := ScanRun(text, start);
        var segment := text[start..i];
        ReplaceRunStep(result, text, groups, index, start, i);
        if hasDigit && index < |groups| {
          result := result + [groups[index]];
          index := index + 1;
        } else {
          result := result + [segment];
        }
      } else {
        ReplaceOtherStep(result, text, groups, index, i);
        result := result + [[ch]];
        i := i + 1;
      }
    }
    assert text[|text|..] == [];
    r := JoinWith("", result);
  }

  // ---------------------------------------------------------------------------
  // properties of the substitution

  /** Once the groups run out, every run is copied verbatim. */
  lemma {:induction false} ReplacedNoGroups(t: string)
    ensures Replaced(t, []) == t
    decreases |t|
  {
    if t != [] {
      if !IsDigitOrSep(t[0]) {
        ReplacedNoGroups(t[1..]);
      } else {
        var n := RunLength(t);
        ReplacedNoGroups(t[n..]);
        TakeDrop(t, n);
      }
    }
  }

  /** Text without a digit (for instance separators only) is copied verbatim. */
  lemma {:induction false} ReplacedNoDigit(t: string, gs: seq<string>)
    requires !HasDigit(t)
    ensures Replaced(t, gs) == t
    decreases |t|
  {
    if t != [] {
      if !IsDigitOrSep(t[0]) {
        NoDigitDrop(t, 1);
        ReplacedNoDigit(t[1..], gs);
      } else {
        var n := RunLength(t);
        NoDigitTake(t, n);
        NoDigitDrop(t, n);
        ReplacedNoDigit(t[n..], gs);
        TakeDrop(t, n);
      }
    }
  }

  /** Substituting the text's own groups gives the text back, whatever groups are
      left over. */
  lemma {:induction false} ReplacedOwnGroups(t: string, rest: seq<string>)
    ensures Replaced(t, Groups(t) + rest) == t
    decreases |t|, 1
  {
    if t != [] {
      if !IsDigitOrSep(t[0]) {
        OwnGroupsOther(t, rest);
      } else {
        OwnGroupsRun(t, rest);
      }
    }
  }

  /** A leading character outside any run is copied. */
  lemma {:induction false} OwnGroupsOther(t: string, rest: seq<string>)
    requires t != [] && !IsDigitOrSep(t[0])
    ensures Replaced(t, Groups(t) + rest) == t
    decreases |t|, 0
  {
    assert Replaced(t, Groups(t) + rest) == [t[0]] + Replaced(t[1..], Groups(t[1..]) + rest);
    ReplacedOwnGroups(t[1..], rest);
    HeadTail(t);
  }

  /** A leading run takes its own group back, or is copied when it has no digit. */
  lemma {:induction false} OwnGroupsRun(t: string, rest: seq<string>)
    requires t != [] && IsDigitOrSep(t[0])
    ensures Replaced(t, Groups(t) + rest) == t
    decreases |t|, 0
  {
    var n := RunLength(t);
    OwnGroupsRunHead(t, rest);
    ReplacedOwnGroups(t[n..], rest);
    TakeDrop(t, n);
  }

  lemma OwnGroupsRunHead(t: string, rest: seq<string>)
    requires t != [] && IsDigitOrSep(t[0])
    ensures Replaced(t, Groups(t) + rest) == t[..RunLength(t)] + Replaced(t[RunLength(t)..], Groups(t[RunLength(t)..]) + rest)
  {
    var n := RunLength(t);
    var run := t[..n];
    if HasDigit(run) {
      assert Groups(t) + rest == [run] + (Groups(t[n..]) + rest);
      assert (Groups(t) + rest)[1..] == Groups(t[n..]) + rest;
    } else {
      assert Groups(t) + rest == Groups(t[n..]) + rest;
    }
  }

  /** `_replace_digit_groups(t, t) == t`. */
  lemma ReplaceWithItself(t: string)
    ensures ReplaceDigitGroupsSpec(t, t) == t
  {
    ReplacedOwnGroups(t, []);
    assert Groups(t) + [] == Groups(t);
  }

  /** A run that ends inside `a` is not extended by what follows `a`. */
  lemma RunInside(a: string, b: string)
    requires a != [] && !IsDigitOrSep(a[|a| - 1])
    ensures RunLength(a) < |a|
    ensures RunLength(a + b) == RunLength(a)
    ensures (a + b)[..RunLength(a)] == a[..RunLength(a)]
    ensures (a + b)[RunLength(a)..] == a[RunLength(a)..] + b
  {
    var n := RunLength(a);
    assert (a + b)[..n] == a[..n];
    RunLengthIs(a + b, n);
  }

  lemma ReplacedOtherHead(a: string, b: string, gs: seq<string>)
    requires a != [] && !IsDigitOrSep(a[0])
    ensures Replaced(a + b, gs) == [a[0]] + Replaced(a[1..] + b, gs)
  {
    assert (a + b)[1..] == a[1..] + b;
  }

  lemma ReplacedRunHead(a: string, b: string, gs: seq<string>)
    requires a != [] && !IsDigitOrSep(a[|a| - 1]) && IsDigitOrSep(a[0])
    requires !HasDigit(a[..RunLength(a)])
    ensures RunLength(a) < |a|
    ensures Replaced(a + b, gs) == a[..RunLength(a)] + Replaced(a[RunLength(a)..] + b, gs)
  {
    RunInside(a, b);
  }

  /** A digit-free prefix that does not end inside a run is copied verbatim and
      leaves the groups untouched. */
  lemma {:induction false} ReplacedNoDigitPrefix(a: string, b: string, gs: seq<string>)
    requires !HasDigit(a) && (a == [] || !IsDigitOrSep(a[|a| - 1]))
    ensures Replaced(a + b, gs) == a + Replaced(b, gs)
    decreases |a|, 1
  {
    if a == [] {
      assert a + b == b;
    } else if !IsDigitOrSep(a[0]) {
      PrefixOther(a, b, gs);
    } else {
      PrefixRun(a, b, gs);
    }
  }

  lemma {:induction false} PrefixOther(a: string, b: string, gs: seq<string>)
    requires a != [] && !IsDigitOrSep(a[0])
    requires !HasDigit(a) && !IsDigitOrSep(a[|a| - 1])
    ensures Replaced(a + b, gs) == a + Replaced(b, gs)
    decreases |a|, 0
  {
    var rest := a[1..];
    NoDigitTail(a);
    ReplacedOtherHead(a, b, gs);
    ReplacedNoDigitPrefix(rest, b, gs);
    ConsAppend(a, Replaced(b, gs));
  }

  lemma NoDigitTail(a: string)
    requires a != [] && !HasDigit(a) && !IsDigitOrSep(a[|a| - 1])
    ensures !HasDigit(a[1..]) && (a[1..] == [] || !IsDigitOrSep(a[1..][|a[1..]| - 1]))
  {
    NoDigitDrop(a, 1);
  }

  lemma ConsAppend(a: string, x: string)
    requires a != []
    ensures [a[0]] + (a[1..] + x) == a + x
  {
    HeadTail(a);
  }

  lemma {:induction false} PrefixRun(a: string, b: string, gs: seq<string>)
    requires a != [] && IsDigitOrSep(a[0])
    requires !HasDigit(a) && !IsDigitOrSep(a[|a| - 1])
    ensures Replaced(a + b, gs) == a + Replaced(b, gs)
    decreases |a|, 0
  {
    var n := RunLength(a);
    NoDigitTake(a, n);
    ReplacedRunHead(a, b, gs);
    var rest := a[n..];
    NoDigitDrop(a, n);
    ReplacedNoDigitPrefix(rest, b, gs);
    TakeDropAppend(a, n, Replaced(b, gs));
  }

  /** A letter `O` read in place of a zero is not a digit, so the run after it is
      the one replaced: the digits reading `012-345` turns `O12-345` into
      `O012-345`. */
  lemma ReplaceLetterZeroExample(text: string, digitsText: string)
    requires text == "Invoice No: O12-345 dated today" && digitsText == "012-345"
    ensures ReplaceDigitGroupsSpec(text, digitsText) == "Invoice No: O012-345 dated today"
  {
    ExampleGroups(digitsText);
    var head, run, tail := "Invoice No: O", "12-345", " dated today";
    ExampleSplit(text, head, run, tail);
    ExampleHead(head, run + tail, [digitsText]);
    ExampleRun(run, tail, digitsText);
    assert Replaced(text, Groups(digitsText)) == head + (digitsText + tail);
    ExampleResult(head, digitsText, tail);
  }

  lemma ExampleSplit(text: string, head: string, run: string, tail: string)
    requires text == "Invoice No: O12-345 dated today"
    requires head == "Invoice No: O" && run == "12-345" && tail == " dated today"
    ensures text == head + (run + tail)
  {
  }

  lemma ExampleResult(head: string, group: string, tail: string)
    requires head == "Invoice No: O" && group == "012-345" && tail == " dated today"
    ensures head + (group + tail) == "Invoice No: O012-345 dated today"
  {
  }

  lemma ExampleGroups(group: string)
    requires group == "012-345"
    ensures Groups(group) == [group]
  {
    assert IsDigit(group[0]);
    assert AllDigitOrSep(group);
    GroupsOfRun(group);
  }

  lemma ExampleHead(head: string, rest: string, gs: seq<string>)
    requires head == "Invoice No: O"
    ensures Replaced(head + rest, gs) == head + Replaced(rest, gs)
  {
    assert !HasDigit(head);
    ReplacedNoDigitPrefix(head, rest, gs);
  }

  lemma ExampleRun(run: string, tail: string, group: string)
    requires run == "12-345" && tail == " dated today"
    ensures Replaced(run + tail, [group]) == group + tail
  {
    var t := run + tail;
    assert t[..6] == run && t[6..] == tail;
    assert IsDigit(run[0]);
    assert HasDigit(run);
    assert AllDigitOrSep(run);
    assert !IsDigitOrSep(t[6]);
    RunStep(t, 6, [group]);
    assert [group][1..] == [];
    ReplacedNoGroups(tail);
  }

  /** The characters that are neither digits nor separators, in order. */
  function Others(s: string): (r: string)
    ensures |r| <= |s|
  {
    if s == [] then [] else (if IsDigitOrSep(s[0]) then [] else [s[0]]) + Others(s[1..])
  }

  lemma {:induction false} OthersAppend(a: string, b: string)
    ensures Others(a + b) == Others(a) + Others(b)
  {
    if a == [] {
      assert a + b == b;
    } else {
      assert (a + b)[1..] == a[1..] + b;
      OthersAppend(a[1..], b);
    }
  }

  lemma {:induction false} OthersOfRun(s: string)
    requires AllDigitOrSep(s)
    ensures Others(s) == []
  {
    if s != [] {
      OthersOfRun(s[1..]);
    }
  }

  /** Substituting groups made of digits and separators copies every other
      character verbatim and in order. */
  lemma {:induction false} ReplacedKeepsOthers(t: string, gs: seq<string>)
    requires forall k :: 0 <= k < |gs| ==> AllDigitOrSep(gs[k])
    ensures Others(Replaced(t, gs)) == Others(t)
    decreases |t|
  {
    if t != [] {
      if !IsDigitOrSep(t[0]) {
        ReplacedKeepsOthers(t[1..], gs);
        OthersAppend([t[0]], Replaced(t[1..], gs));
        HeadTail(t);
        OthersAppend([t[0]], t[1..]);
      } else {
        var n := RunLength(t);
        OthersOfRun(t[..n]);
        OthersAppend(t[..n], t[n..]);
        TakeDrop(t, n);
        if HasDigit(t[..n]) && gs != [] {
          ReplacedKeepsOthers(t[n..], gs[1..]);
          OthersOfRun(gs[0]);
          OthersAppend(gs[0], Replaced(t[n..], gs[1..]));
        } else {
          ReplacedKeepsOthers(t[n..], gs);
          OthersAppend(t[..n], Replaced(t[n..], gs));
        }
      }
    }
  }

  /** The substitution keeps every character that is not a digit or separator. */
  lemma ReplaceKeepsOthers(text: string, digitsText: string)
    ensures Others(ReplaceDigitGroupsSpec(text, digitsText)) == Others(text)
  {
    GroupsShape(digitsText);
    ReplacedKeepsOthers(text, Groups(digitsText));
  }

  /** Digits text without a digit leaves the text unchanged. */
  lemma ReplaceWithoutDigits(text: string, digitsText: string)
    requires !HasDigit(digitsText)
    ensures ReplaceDigitGroupsSpec(text, digitsText) == text
  {
    GroupsNoDigit(digitsText);
  }
}
