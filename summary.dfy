/**
 * `clean_summary` and `generate_summary`. The summary cleaner runs, in order:
 *   1. `\s+` -> " "                               (collapse whitespace)
 *   2. `\s([.,!?;:])` -> `\1`                     (drop the space before punctuation)
 *   3. `(^|[.!?]\s+)([a-z])` -> upper-case letter (capitalise sentence starts)
 *   4. the apostrophe rewrite of `clean_text`
 *   5. append "." unless the text ends in `.`, `!` or `?`, then `strip()`.
 * The summariser model is a parameter: a function from its input text to its
 * output, or `None` where the call raises.
 */
module Summary {
  import opened Optional
  import opened Text
  import opened Normalizer

  predicate IsPunct(c: char) {
    c == '.' || c == ',' || c == '!' || c == '?' || c == ';' || c == ':'
  }

  /** The characters that end a sentence. */
  predicate IsTerminal(c: char) {
    c == '.' || c == '!' || c == '?'
  }

  lemma PunctNotSpace(c: char)
    requires IsPunct(c)
    ensures !IsSpace(c) && !IsAsciiLower(c)
  {
    AsciiSpace(c);
  }

  // ---------------------------------------------------------------------------
  // Step 2: no space before punctuation

  /** `re.sub(r'\s([.,!?;:])', r'\1', s)` from position `i` on. */
  function DropFrom(s: String, i: nat): (r: String)
    requires i <= |s|
    ensures |r| <= |s| - i
    ensures r == [] <==> i == |s|
    ensures i < |s| ==> r[|r| - 1] == s[|s| - 1]
    ensures i < |s| && !IsSpace(s[i]) ==> r[0] == s[i]
    decreases |s| - i
  {
    if i == |s| then
      []
    else if IsSpace(s[i]) && i + 1 < |s| && IsPunct(s[i + 1]) then
      [s[i + 1]] + DropFrom(s, i + 2)
    else
      [s[i]] + DropFrom(s, i + 1)
  }

  function DropSpaceBeforePunct(s: String): (r: String)
    ensures |r| <= |s|
    ensures r == [] <==> s == []
    ensures s != [] ==> r[|r| - 1] == s[|s| - 1]
    ensures s != [] && !IsSpace(s[0]) ==> r[0] == s[0]
  {
    DropFrom(s, 0)
  }

  /** No whitespace character stands right before a punctuation mark. */
  predicate NoSpaceBeforePunct(s: String) {
    forall k :: 0 <= k < |s| - 1 ==> !(IsSpace(s[k]) && IsPunct(s[k + 1]))
  }

  /** Where the scan of step 2 resumes after position `i`: past the mark when
      `s[i]` is whitespace before a punctuation mark, else past `s[i]`. The
      character it keeps is `s[DropNext(s, i) - 1]` in both cases. */
  function DropNext(s: String, i: nat): (j: nat)
    requires i < |s|
    ensures i < j <= |s|
  {
    if IsSpace(s[i]) && i + 1 < |s| && IsPunct(s[i + 1]) then i + 2 else i + 1
  }

  lemma DropFromStep(s: String, i: nat)
    requires i < |s|
    ensures DropFrom(s, i) == [s[DropNext(s, i) - 1]] + DropFrom(s, DropNext(s, i))
  {
  }

  /** The next resume point depends only on the two characters at `i`. */
  lemma DropNextShift(p: String, t: String, k: nat)
    requires k < |t|
    ensures DropNext(p + t, |p| + k) == |p| + DropNext(t, k)
  {
    assert (p + t)[|p| + k] == t[k];
    if k + 1 < |t| {
      assert (p + t)[|p| + k + 1] == t[k + 1];
    }
  }

  /** A scan of step 2 started inside `t` ignores what stands before `t`. */
  lemma {:induction false} DropFromShift(p: String, t: String, k: nat)
    requires k <= |t|
    ensures DropFrom(p + t, |p| + k) == DropFrom(t, k)
    decreases |t| - k
  {
    if k < |t| {
      DropFromShift(p, t, DropNext(t, k));
      DropFromShiftStep(p, t, k);
    }
  }

  /** One step of `DropFromShift`: if the scans agree from the next position on,
      they agree from `k`. */
  lemma DropFromShiftStep(p: String, t: String, k: nat)
    requires k < |t|
    requires DropFrom(p + t, |p| + DropNext(t, k)) == DropFrom(t, DropNext(t, k))
    ensures DropFrom(p + t, |p| + k) == DropFrom(t, k)
  {
    DropFromShiftUnfold(p, t, k);
    DropFromStep(t, k);
  }

  /** The scan from `|p| + k` in `p + t` takes its step as the scan from `k` in `t` does. */
  lemma DropFromShiftUnfold(p: String, t: String, k: nat)
    requires k < |t|
    ensures DropFrom(p + t, |p| + k) == [t[DropNext(t, k) - 1]] + DropFrom(p + t, |p| + DropNext(t, k))
  {
    var j := DropNext(t, k);
    DropNextShift(p, t, k);
    assert (p + t)[|p| + j - 1] == t[j - 1];
    DropFromStep(p + t, |p| + k);
  }

  /** A scan of step 2 that stops inside `x`, or reaches its end where the seam
      is safe, is not affected by `y`. */
  lemma DropNextAppend(x: String, y: String, i: nat)
    requires i < |x|
    requires y == [] || !IsSpace(x[|x| - 1]) || !IsPunct(y[0])
    ensures DropNext(x + y, i) == DropNext(x, i)
  {
    assert (x + y)[i] == x[i];
    if i + 1 < |x| {
      assert (x + y)[i + 1] == x[i + 1];
    } else if y != [] {
      assert (x + y)[i + 1] == y[0];
    }
  }

  lemma {:induction false} DropFromAppend(x: String, y: String, i: nat)
    requires i <= |x|
    requires x == [] || y == [] || !IsSpace(x[|x| - 1]) || !IsPunct(y[0])
    ensures DropFrom(x + y, i) == DropFrom(x, i) + DropFrom(y, 0)
    decreases |x| - i
  {
    if i == |x| {
      DropFromShift(x, y, 0);
    } else {
      DropFromAppend(x, y, DropNext(x, i));
      DropFromAppendStep(x, y, i);
    }
  }

  /** One step of `DropFromAppend`, given the claim from where the scan resumes. */
  lemma DropFromAppendStep(x: String, y: String, i: nat)
    requires i < |x|
    requires y == [] || !IsSpace(x[|x| - 1]) || !IsPunct(y[0])
    requires DropFrom(x + y, DropNext(x, i)) == DropFrom(x, DropNext(x, i)) + DropFrom(y, 0)
    ensures DropFrom(x + y, i) == DropFrom(x, i) + DropFrom(y, 0)
  {
    var j := DropNext(x, i);
    DropNextAppend(x, y, i);
    var c := x[j - 1];
    assert (x + y)[j - 1] == c;
    DropFromStep(x + y, i);
    assert DropFrom(x + y, i) == [c] + DropFrom(x + y, j);
    DropFromStep(x, i);
    assert DropFrom(x, i) == [c] + DropFrom(x, j);
    ConsAppend(c, DropFrom(x, j), DropFrom(y, 0));
  }

  lemma ConsAppend(c: char, a: String, b: String)
    ensures [c] + (a + b) == ([c] + a) + b
  {
  }

  /** Step 2 rewrites `x + y` piece by piece when `x` does not end in whitespace
      or `y` does not start with a punctuation mark, so no match straddles the seam. */
  lemma DropAppend(x: String, y: String)
    requires x == [] || y == [] || !IsSpace(x[|x| - 1]) || !IsPunct(y[0])
    ensures DropSpaceBeforePunct(x + y) == DropSpaceBeforePunct(x) + DropSpaceBeforePunct(y)
  {
    DropFromAppend(x, y, 0);
  }

  /** A whitespace character followed by a punctuation mark becomes the mark alone. */
  lemma DropOfPair(w: char, p: char)
    requires IsSpace(w) && IsPunct(p)
    ensures DropSpaceBeforePunct([w, p]) == [p]
  {
    assert DropFrom([w, p], 2) == [];
  }

  /** On single-spaced text (as step 1 leaves it) no space is left before a
      punctuation mark. */
  lemma {:induction false} DropFromNoSpaceBeforePunct(s: String, i: nat)
    requires i <= |s| && SingleSpaced(s)
    ensures NoSpaceBeforePunct(DropFrom(s, i))
    decreases |s| - i
  {
    if i < |s| {
      if IsSpace(s[i]) && i + 1 < |s| && IsPunct(s[i + 1]) {
        DropFromNoSpaceBeforePunct(s, i + 2);
        PunctNotSpace(s[i + 1]);
      } else {
        DropFromNoSpaceBeforePunct(s, i + 1);
        if IsSpace(s[i]) && i + 1 < |s| {
          assert !IsSpace(s[i + 1]);
        }
      }
    }
  }

  lemma DropSpaceBeforePunctSingleSpaced(s: String)
    requires SingleSpaced(s)
    ensures NoSpaceBeforePunct(DropSpaceBeforePunct(s))
  {
    DropFromNoSpaceBeforePunct(s, 0);
  }

  /** The non-whitespace characters of `s`, in order. */
  function NonSpaces(s: String): String {
    if s == [] then [] else (if IsSpace(s[0]) then [] else [s[0]]) + NonSpaces(s[1..])
  }

  /** Step 2 removes whitespace only: every other character survives, in order. */
  lemma {:induction false} DropFromKeepsNonSpaces(s: String, i: nat)
    requires i <= |s|
    ensures NonSpaces(DropFrom(s, i)) == NonSpaces(s[i..])
    decreases |s| - i
  {
    if i < |s| {
      assert s[i..][1..] == s[i + 1..];
      if IsSpace(s[i]) && i + 1 < |s| && IsPunct(s[i + 1]) {
        DropFromKeepsNonSpaces(s, i + 2);
        assert s[i + 1..][1..] == s[i + 2..];
        PunctNotSpace(s[i + 1]);
        assert ([s[i + 1]] + DropFrom(s, i + 2))[1..] == DropFrom(s, i + 2);
      } else {
        DropFromKeepsNonSpaces(s, i + 1);
        assert ([s[i]] + DropFrom(s, i + 1))[1..] == DropFrom(s, i + 1);
      }
    }
  }

  // ---------------------------------------------------------------------------
  // Step 3: sentence starts

  /** A sentence start: a lowercase ASCII letter at the very beginning, or right
      after a run of whitespace that follows `.`, `!` or `?`. */
  predicate SentenceStart(s: String, k: nat) {
    && k < |s|
    && IsAsciiLower(s[k])
    && (k == 0 || var a := BackOverSpaces(s, 0, k); 0 < a < k && IsTerminal(s[a - 1]))
  }

  /** The letter the second alternative of the pattern upper-cases when it
      matches at `i`: the first non-whitespace character after `s[i]`. */
  function AfterSpaces(s: String, i: nat): nat
    requires i < |s|
  {
    SkipSpaces(s, i + 1)
  }

  /** The pattern's second alternative `[.!?]\s+([a-z])` matches at `i`. */
  predicate PunctMatchAt(s: String, i: nat)
    requires i < |s|
  {
    var j := AfterSpaces(s, i);
    IsTerminal(s[i]) && i + 1 < j < |s| && IsAsciiLower(s[j])
  }

  /** The letters `re.sub` upper-cases, scanning from `i`: left to right, trying
      `^` (only at position 0) and then `[.!?]\s+`, each followed by `[a-z]`,
      and resuming right after a match. */
  function CapitalsFrom(s: String, i: nat): (m: set<nat>)
    requires i <= |s|
    ensures forall k :: k in m ==> i <= k < |s|
    decreases |s| - i
  {
    if i == |s| then
      {}
    else if i == 0 && IsAsciiLower(s[0]) then
      {0} + CapitalsFrom(s, 1)
    else if PunctMatchAt(s, i) then
      {AfterSpaces(s, i)} + CapitalsFrom(s, AfterSpaces(s, i) + 1)
    else
      CapitalsFrom(s, i + 1)
  }

  /** Step 3, `re.sub(r'(^|[.!?]\s+)([a-z])', ..upper.., s)`: exactly the
      sentence starts are upper-cased and every other character is kept. */
  function CapitalizeSentences(s: String): (r: String)
    ensures |r| == |s|
    ensures forall k :: 0 <= k < |s| ==> r[k] == if SentenceStart(s, k) then ToUpper(s[k]) else s[k]
  {
    var m := CapitalsFrom(s, 0);
    CapitalsExact(s);
    seq(|s|, k requires 0 <= k < |s| => if k in m then ToUpper(s[k]) else s[k])
  }

  /** A sentence start whose terminal mark lies at or after `i` (or which is the
      very first character, when the scan starts there). */
  predicate SentenceStartFrom(s: String, i: nat, k: nat) {
    && k < |s|
    && IsAsciiLower(s[k])
    && ((k == 0 && i == 0) || var a := BackOverSpaces(s, 0, k); i < a < k && IsTerminal(s[a - 1]))
  }

  /** When `s[i]` is a sentence mark followed by whitespace up to the lowercase
      letter at `k`, the second alternative matches at `i` and reaches `k`. */
  lemma PunctMatchReaches(s: String, i: nat, k: nat)
    requires i + 1 < k < |s| && IsTerminal(s[i]) && IsAsciiLower(s[k])
    requires forall m :: i < m < k ==> IsSpace(s[m])
    ensures PunctMatchAt(s, i) && AfterSpaces(s, i) == k
  {
    AsciiSpace(s[k]);
    SkipSpacesFrom(s, i + 1, k);
  }

  /** Past position 0 the first alternative is gone: a scan from 1 finds the
      same sentence starts as one from 0 except position 0. */
  lemma StartStep(s: String, k: nat)
    requires s != [] && IsAsciiLower(s[0])
    ensures SentenceStartFrom(s, 0, k) <==> k == 0 || SentenceStartFrom(s, 1, k)
  {
    AsciiSpace(s[0]);
  }

  /** After a match of the second alternative at `i` reaching `j`, the scan
      resumes at `j + 1` and misses no sentence start. */
  lemma MatchStep(s: String, i: nat, k: nat)
    requires i < |s| && PunctMatchAt(s, i)
    ensures SentenceStartFrom(s, i, k) <==> k == AfterSpaces(s, i) || SentenceStartFrom(s, AfterSpaces(s, i) + 1, k)
  {
    var j := AfterSpaces(s, i);
    SkipSpacesSkipsSpaces(s, i + 1);
    PunctNotSpace(s[i]);
    AsciiSpace(s[j]);
    if k < |s| && IsAsciiLower(s[k]) && k > 0 {
      var a := BackOverSpaces(s, 0, k);
      AsciiSpace(s[k]);
      if k == j {
        assert a == i + 1;
      } else if k > j {
        assert a > j;
      }
    }
  }

  /** Where nothing matches at `i`, no sentence start has its mark at `i`. */
  lemma SkipStep(s: String, i: nat, k: nat)
    requires i < |s| && !(i == 0 && IsAsciiLower(s[0])) && !PunctMatchAt(s, i)
    ensures SentenceStartFrom(s, i, k) <==> SentenceStartFrom(s, i + 1, k)
  {
    if k < |s| && IsAsciiLower(s[k]) && k > 0 {
      var a := BackOverSpaces(s, 0, k);
      if i < a < k && IsTerminal(s[a - 1]) && a - 1 == i {
        PunctMatchReaches(s, i, k);
      }
    }
  }

  /** The scan from `i` upper-cases exactly the sentence starts whose mark lies
      at or after `i`. */
  lemma {:induction false} CapitalsFromExact(s: String, i: nat, k: nat)
    requires i <= |s|
    ensures k in CapitalsFrom(s, i) <==> SentenceStartFrom(s, i, k)
    decreases |s| - i
  {
    if i < |s| {
      if i == 0 && IsAsciiLower(s[0]) {
        CapitalsFromExact(s, 1, k);
        StartStep(s, k);
      } else if PunctMatchAt(s, i) {
        CapitalsFromExact(s, AfterSpaces(s, i) + 1, k);
        MatchStep(s, i, k);
      } else {
        CapitalsFromExact(s, i + 1, k);
        SkipStep(s, i, k);
      }
    }
  }

  /** The scan from the start upper-cases exactly the sentence starts. */
  lemma CapitalsExact(s: String)
    ensures forall k: nat :: k < |s| ==> (k in CapitalsFrom(s, 0) <==> SentenceStart(s, k))
  {
    forall k: nat | k < |s| ensures k in CapitalsFrom(s, 0) <==> SentenceStart(s, k) {
      CapitalsFromExact(s, 0, k);
    }
  }


  // ---------------------------------------------------------------------------
  // The whole cleaner

  /** Step 5a: append "." unless the text is empty or already ends a sentence. */
  function EnsureTerminal(s: String): (r: String)
    ensures r == s || r == s + "."
    ensures r == s <==> s == [] || IsTerminal(s[|s| - 1])
    ensures s != [] ==> IsTerminal(r[|r| - 1])
  {
    if s != [] && !IsTerminal(s[|s| - 1]) then s + "." else s
  }

  /** `clean_summary`: empty text stays empty; any other text gives a non-empty
      result that ends a sentence and has no whitespace at either end. */
  function CleanSummary(text: String): (r: String)
    ensures text == [] ==> r == []
    ensures text != [] ==> r != [] && IsTerminal(r[|r| - 1]) && !IsSpace(r[0]) && !IsSpace(r[|r| - 1])
  {
    var t := EnsureTerminal(RestoreApostrophes(CapitalizeSentences(DropSpaceBeforePunct(CollapseSpaces(text)))));
    assert t != [] ==> !IsSpace(t[|t| - 1]) by {
      if t != [] { PunctNotSpace(t[|t| - 1]); }
    }
    Strip(t)
  }

  /** The apostrophe step never changes the first or the last character. */
  lemma RestoreApostrophesKeepsEnds(s: String)
    requires s != []
    ensures RestoreApostrophes(s)[0] == s[0]
    ensures RestoreApostrophes(s)[|s| - 1] == s[|s| - 1]
  {
    if 0 in MatchesFrom(s, 0) {
      MatchesFromSound(s, 0, 0);
    }
    if |s| - 1 in MatchesFrom(s, 0) {
      MatchesFromSound(s, 0, |s| - 1);
    }
  }

  /** Collapsing whitespace keeps a last character that is not whitespace. */
  lemma {:induction false} CollapseFromKeepsLast(s: String, i: nat)
    requires i < |s| && !IsSpace(s[|s| - 1])
    ensures CollapseFrom(s, i) != [] && CollapseFrom(s, i)[|CollapseFrom(s, i)| - 1] == s[|s| - 1]
    decreases |s| - i
  {
    if IsSpace(s[i]) {
      SkipSpacesSkipsSpaces(s, i);
      CollapseFromKeepsLast(s, SkipSpaces(s, i));
    } else if i + 1 < |s| {
      CollapseFromKeepsLast(s, i + 1);
    }
  }

  /** Text whose first character is a lowercase ASCII letter gets that letter
      upper-cased at the start of its summary. */
  lemma CleanSummaryCapitalizesFirst(text: String)
    requires text != [] && IsAsciiLower(text[0])
    ensures CleanSummary(text)[0] == ToUpper(text[0])
  {
    AsciiSpace(text[0]);
    var t1 := CollapseSpaces(text);
    assert t1[0] == text[0];
    var t2 := DropSpaceBeforePunct(t1);
    var t3 := CapitalizeSentences(t2);
    RestoreApostrophesKeepsEnds(t3);
    AsciiSpace(ToUpper(text[0]));
  }

  /** Text that ends in "." keeps that "." as the last character of its summary. */
  lemma CleanSummaryKeepsFinalPeriod(text: String)
    requires text != [] && text[|text| - 1] == '.'
    ensures CleanSummary(text)[|CleanSummary(text)| - 1] == '.'
  {
    PunctNotSpace('.');
    CollapseFromKeepsLast(text, 0);
    var t2 := DropSpaceBeforePunct(CollapseSpaces(text));
    var t3 := CapitalizeSentences(t2);
    assert t3[|t3| - 1] == '.';
    RestoreApostrophesKeepsEnds(t3);
  }

  /** Step 2 keeps text that has no whitespace before a punctuation mark. */
  lemma {:induction false} DropFromWithoutMatch(s: String, i: nat)
    requires i <= |s| && NoSpaceBeforePunct(s)
    ensures DropFrom(s, i) == s[i..]
    decreases |s| - i
  {
    if i < |s| {
      DropFromWithoutMatch(s, i + 1);
    }
  }

  /** "Hello. " is single-spaced and has no space before a punctuation mark. */
  lemma HelloShape(s: String)
    requires s == "Hello. "
    ensures CollapseSpaces(s) == s && DropSpaceBeforePunct(s) == s
  {
    forall k | 0 <= k < |s| ensures IsSpace(s[k]) <==> k == 6 {
      AsciiSpace(s[k]);
    }
    CollapseOfSingleSpaced(s);
    DropFromWithoutMatch(s, 0);
    assert s[0..] == s;
  }

  /** "Hello. " holds no sentence start: its only lower-case letters follow a letter. */
  lemma HelloNoCapitals(s: String)
    requires s == "Hello. "
    ensures CapitalizeSentences(s) == s
  {
    var r := CapitalizeSentences(s);
    forall k | 0 <= k < |s| ensures r[k] == s[k] {
      if 0 < k < 5 {
        AsciiSpace(s[k - 1]);
        assert BackOverSpaces(s, 0, k) == k;
      }
    }
  }

  /** "Hello. " holds no apostrophe site. */
  lemma HelloNoContraction(s: String)
    requires s == "Hello. "
    ensures RestoreApostrophes(s) == s
  {
    AsciiSpace('.');
    assert LetterRunEnd(s, 0) == 5 by {
      assert LetterRunEnd(s, 3) == 5 by { assert LetterRunEnd(s, 4) == 5; }
      assert LetterRunEnd(s, 1) == 5 by { assert LetterRunEnd(s, 2) == 5; }
    }
    assert NoContraction(s);
    RestoreApostrophesWithoutMatch(s);
  }

  /** A trailing space survives steps 1 to 4, so "." is appended after it and the
      final strip keeps both: "Hello. " becomes "Hello. .". */
  lemma SpaceBeforeAppendedPeriod(s: String)
    requires s == "Hello. "
    ensures CleanSummary(s) == "Hello. ."
  {
    HelloShape(s);
    HelloNoCapitals(s);
    HelloNoContraction(s);
    AsciiSpace('H');
    AsciiSpace('.');
  }

  // ---------------------------------------------------------------------------
  // generate_summary

  /** Python's `str.capitalize` on ASCII: the first character upper-cased, every
      other one lower-cased. */
  function PyCapitalize(s: String): (r: String)
    ensures |r| == |s|
    ensures r != [] ==> !IsAsciiLower(r[0])
    ensures forall k :: 0 < k < |r| ==> !IsAsciiUpper(r[k])
    ensures Lower(r) == Lower(s)
  {
    if s == [] then [] else [ToUpper(s[0])] + Lower(s[1..])
  }

  /** `capitalize` lower-cases everything after the first letter, so an acronym
      at the start is not kept: "NASA news" gives "Nasa news". */
  lemma CapitalizeLowersRest(s: String)
    requires s == "NASA news"
    ensures PyCapitalize(s) == "Nasa news"
  {
  }

  lemma PyCapitalizeIdempotent(s: String)
    ensures PyCapitalize(PyCapitalize(s)) == PyCapitalize(s)
  {
    var r := PyCapitalize(s);
    if r != [] {
      assert r[1..] == Lower(s[1..]);
    }
  }

  /** The summariser: its output for an input text, or `None` where the call
      raises. */
  type Summariser = String -> Option<String>

  const NoContent: String := "No content available to summarize."
  const ModelPrefix: String := "summarize: "
  const ModelInputLimit: nat := 2048
  const FallbackLimit: nat := 300
  const ShortText: nat := 10

  /** What the summariser is given: the prefix and the first 2048 characters. */
  function ModelInput(t: String): (r: String)
    ensures StartsWith(r, ModelPrefix)
    ensures |r| <= |ModelPrefix| + ModelInputLimit
    ensures r[|ModelPrefix|..] <= t
    ensures |r| == |ModelPrefix| + if |t| < ModelInputLimit then |t| else ModelInputLimit
  {
    assert (ModelPrefix + Take(t, ModelInputLimit))[..|ModelPrefix|] == ModelPrefix;
    assert (ModelPrefix + Take(t, ModelInputLimit))[|ModelPrefix|..] == Take(t, ModelInputLimit);
    ModelPrefix + Take(t, ModelInputLimit)
  }

  /** `generate_summary`: strip the text; empty text gets a fixed message, text
      of fewer than ten tokens is only capitalised, and longer text goes to the
      summariser, whose output is cleaned; when the summariser raises, the first
      300 characters with "..." are cleaned instead. */
  function GenerateSummary(text: String, summarise: Summariser): (r: String)
    ensures Strip(text) == [] ==> r == NoContent
    ensures r == [] ==> summarise(ModelInput(Strip(text))) == Some([])
  {
    var t := Strip(text);
    if t == [] then
      NoContent
    else if WordCount(t) < ShortText then
      PyCapitalize(t)
    else
      match summarise(ModelInput(t))
      case Some(out) => CleanSummary(out)
      case None => CleanSummary(Take(t, FallbackLimit) + "...")
  }

  /** Short text is answered without the summariser. */
  lemma ShortTextSkipsModel(text: String, f: Summariser, g: Summariser)
    requires Strip(text) != [] && WordCount(Strip(text)) < ShortText
    ensures GenerateSummary(text, f) == GenerateSummary(text, g) == PyCapitalize(Strip(text))
  {
  }

  /** The result depends on the summariser only through its answer to
      `ModelInput` of the stripped text. */
  lemma SummaryDependsOnModelInput(text: String, f: Summariser, g: Summariser)
    requires f(ModelInput(Strip(text))) == g(ModelInput(Strip(text)))
    ensures GenerateSummary(text, f) == GenerateSummary(text, g)
  {
  }

  /** On long text the summariser's answer is cleaned: a non-empty answer comes
      back non-empty, ending in a sentence mark, with no whitespace at either end. */
  lemma ModelSummary(text: String, f: Summariser, out: String)
    requires Strip(text) != [] && WordCount(Strip(text)) >= ShortText
    requires f(ModelInput(Strip(text))) == Some(out)
    ensures GenerateSummary(text, f) == CleanSummary(out)
    ensures out != [] ==> var r := GenerateSummary(text, f);
              r != [] && IsTerminal(r[|r| - 1]) && !IsSpace(r[0]) && !IsSpace(r[|r| - 1])
  {
  }

  /** When the summariser raises on long text, the result is the cleaned
      truncation, and it ends with the last "." of the appended "...". */
  lemma FallbackSummary(text: String, f: Summariser)
    requires Strip(text) != [] && WordCount(Strip(text)) >= ShortText
    requires f(ModelInput(Strip(text))) == None
    ensures GenerateSummary(text, f) == CleanSummary(Take(Strip(text), FallbackLimit) + "...")
    ensures var r := GenerateSummary(text, f); r != [] && r[|r| - 1] == '.'
  {
    var u := Take(Strip(text), FallbackLimit) + "...";
    assert u[|u| - 1] == '.';
    CleanSummaryKeepsFinalPeriod(u);
  }
}
