/**
 * `clean_text`: the normaliser applied to every scraped headline. After Unicode
 * normalisation it runs three regular-expression substitutions in a fixed order:
 *   1. `\b([A-Za-z]+)\s([smtdl])\b` -> `\1'\2`   (rejoin an elided apostrophe)
 *   2. `[^\x00-\x7F]+` -> " "                     (each run of non-ASCII becomes a space)
 *   3. `\s+` -> " ", then `strip()`               (collapse whitespace and trim)
 * Each substitution is modelled as Python's `re.sub` scan: left to right, trying a
 * match at each position, and on success resuming right after the match.
 */
module Normalizer {
  import opened Text

  predicate IsElidedLetter(c: char) {
    c == 's' || c == 'm' || c == 't' || c == 'd' || c == 'l'
  }

  /** End of the maximal run of ASCII letters starting at `i`: where the greedy
      `[A-Za-z]+` stops. */
  function LetterRunEnd(s: String, i: nat): (j: nat)
    requires i <= |s|
    ensures i <= j <= |s|
    ensures forall k :: i <= k < j ==> IsAsciiLetter(s[k])
    ensures j == |s| || !IsAsciiLetter(s[j])
    decreases |s| - i
  {
    if i < |s| && IsAsciiLetter(s[i]) then LetterRunEnd(s, i + 1) else i
  }

  /** The apostrophe pattern matches at position `i`: a word boundary, a run of
      ASCII letters, exactly one whitespace character, one of `s m t d l`, and a
      word boundary. Because `\s` never matches a letter, the greedy letter run
      cannot backtrack into a shorter match. */
  predicate ContractionAt(s: String, i: nat) {
    && i < |s|
    && IsAsciiLetter(s[i])
    && (i == 0 || !IsWordChar(s[i - 1]))
    && var j := LetterRunEnd(s, i);
       && j + 1 < |s|
       && IsSpace(s[j])
       && IsElidedLetter(s[j + 1])
       && (j + 2 == |s| || !IsWordChar(s[j + 2]))
  }

  /** The matches `re.sub` finds for the apostrophe pattern, scanning from
      position `i`: left to right, trying each position, and resuming right after
      a match. Each match is recorded by the position of its whitespace character,
      the only character the replacement `\1'\2` changes. */
  function MatchesFrom(s: String, i: nat): (m: set<nat>)
    requires i <= |s|
    ensures forall k :: k in m ==> i <= k < |s|
    decreases |s| - i
  {
    if i == |s| then
      {}
    else if ContractionAt(s, i) then
      {LetterRunEnd(s, i)} + MatchesFrom(s, LetterRunEnd(s, i) + 2)
    else
      MatchesFrom(s, i + 1)
  }

  /** Step 1: "Trump s" becomes "Trump's": the whitespace character of every
      match becomes `'`, everything else is kept. */
  function RestoreApostrophes(s: String): (r: String)
    ensures |r| == |s|
  {
    var m := MatchesFrom(s, 0);
    seq(|s|, k requires 0 <= k < |s| => if k in m then '\'' else s[k])
  }

  predicate AllAscii(s: String) {
    forall k :: 0 <= k < |s| ==> IsAscii(s[k])
  }

  /** End of the run of non-ASCII characters that starts at `i`. */
  function NonAsciiRunEnd(s: String, i: nat): (j: nat)
    requires i <= |s|
    ensures i <= j <= |s|
    ensures forall k :: i <= k < j ==> !IsAscii(s[k])
    ensures j < |s| ==> IsAscii(s[j])
    decreases |s| - i
  {
    if i < |s| && !IsAscii(s[i]) then NonAsciiRunEnd(s, i + 1) else i
  }

  /** `re.sub(r"[^\x00-\x7F]+", " ", s)` from position `i` on. */
  function ReplaceNonAsciiFrom(s: String, i: nat): (r: String)
    requires i <= |s|
    ensures AllAscii(r)
    ensures |r| <= |s| - i
    decreases |s| - i
  {
    if i == |s| then
      []
    else if IsAscii(s[i]) then
      [s[i]] + ReplaceNonAsciiFrom(s, i + 1)
    else
      [' '] + ReplaceNonAsciiFrom(s, NonAsciiRunEnd(s, i))
  }

  /** Step 2: every maximal run of non-ASCII characters becomes one space, so
      "naïve" becomes "na ve". */
  function ReplaceNonAscii(s: String): (r: String)
    ensures AllAscii(r)
  {
    ReplaceNonAsciiFrom(s, 0)
  }

  /** No two whitespace characters are adjacent. */
  predicate SingleSpaced(s: String) {
    forall k :: 0 <= k < |s| - 1 ==> !(IsSpace(s[k]) && IsSpace(s[k + 1]))
  }

  /** The only whitespace character present is the plain space. */
  predicate PlainSpaces(s: String) {
    forall k :: 0 <= k < |s| && IsSpace(s[k]) ==> s[k] == ' '
  }

  /** `re.sub(r"\s+", " ", s)` from position `i` on. */
  function CollapseFrom(s: String, i: nat): (r: String)
    requires i <= |s|
    ensures SingleSpaced(r) && PlainSpaces(r)
    ensures r == [] <==> i == |s|
    ensures i < |s| ==> (IsSpace(s[i]) <==> IsSpace(r[0]))
    ensures AllAscii(s[i..]) ==> AllAscii(r)
    decreases |s| - i
  {
    if i == |s| then
      []
    else if IsSpace(s[i]) then
      var rest := CollapseFrom(s, SkipSpaces(s, i));
      assert AllAscii(s[i..]) ==> AllAscii(s[SkipSpaces(s, i)..]) by {
        assert forall k :: SkipSpaces(s, i) <= k < |s| ==> s[k] == s[i..][k - i];
      }
      [' '] + rest
    else
      var rest := CollapseFrom(s, i + 1);
      assert AllAscii(s[i..]) ==> AllAscii(s[i + 1..]) by {
        assert forall k :: i + 1 <= k < |s| ==> s[k] == s[i..][k - i];
      }
      [s[i]] + rest
  }

  /** Step 3a: `re.sub(r"\s+", " ", s)`. Every whitespace run becomes one plain
      space and every other character is kept, so the result is single-spaced. */
  function CollapseSpaces(s: String): (r: String)
    ensures SingleSpaced(r) && PlainSpaces(r)
    ensures r == [] <==> s == []
    ensures AllAscii(s) ==> AllAscii(r)
  {
    assert s[0..] == s;
    CollapseFrom(s, 0)
  }

  /** `clean_text`: the output is ASCII, single-spaced with plain spaces only, and
      neither starts nor ends with whitespace. */
  function CleanText(text: String): (r: String)
    ensures AllAscii(r)
    ensures SingleSpaced(r) && PlainSpaces(r)
    ensures r != [] ==> !IsSpace(r[0]) && !IsSpace(r[|r| - 1])
  {
    var c := CollapseSpaces(ReplaceNonAscii(RestoreApostrophes(text)));
    StripKeepsShape(c);
    Strip(c)
  }

  /** `strip()` takes a slice, so it keeps every property that holds of all slices. */
  lemma StripKeepsShape(c: String)
    ensures AllAscii(c) ==> AllAscii(Strip(c))
    ensures SingleSpaced(c) ==> SingleSpaced(Strip(c))
    ensures PlainSpaces(c) ==> PlainSpaces(Strip(c))
  {
    var r := Strip(c);
    assert forall k :: 0 <= k < |r| ==> r[k] == c[StripStart(c) + k];
  }

  // ---------------------------------------------------------------------------
  // The apostrophe step: what it changes and what it joins

  /** Every match found from `i` on is the whitespace character closing the
      letter run of a match of the pattern at some `b >= i`. */
  lemma {:induction false} MatchesFromSound(s: String, i: nat, k: nat)
    requires i <= |s| && k in MatchesFrom(s, i)
    ensures exists b: nat :: i <= b < k && ContractionAt(s, b) && LetterRunEnd(s, b) == k
    decreases |s| - i
  {
    if ContractionAt(s, i) {
      if k != LetterRunEnd(s, i) {
        MatchesFromSound(s, LetterRunEnd(s, i) + 2, k);
      }
    } else {
      MatchesFromSound(s, i + 1, k);
    }
  }

  /** Soundness of the apostrophe step: the only edit it makes is to turn the
      whitespace character of a match "<letters> <s|m|t|d|l>" into `'`. */
  lemma RestoreApostrophesOnlyJoins(s: String, k: nat)
    requires k < |s|
    ensures RestoreApostrophes(s)[k] != s[k] ==>
              IsSpace(s[k]) && RestoreApostrophes(s)[k] == '\'' &&
              exists b: nat :: b < k && ContractionAt(s, b) && LetterRunEnd(s, b) == k
  {
    if k in MatchesFrom(s, 0) {
      MatchesFromSound(s, 0, k);
    }
  }

  /** Exactness of the scan from `i`: a match of the pattern at `b >= i` is
      found unless the scan has just taken a match whose whitespace character
      sits right before `b`, that is, unless the letter run at `b` is the lone
      letter that ended the previous match (the "t" of "a s t"). */
  lemma {:induction false} MatchesFromExact(s: String, i: nat, b: nat)
    requires i <= b && ContractionAt(s, b)
    ensures LetterRunEnd(s, b) in MatchesFrom(s, i) <==> b == i || b - 1 !in MatchesFrom(s, i)
    decreases |s| - i
  {
    if i < b {
      if ContractionAt(s, i) {
        var e := LetterRunEnd(s, i);
        if e + 2 <= b {
          MatchesFromExact(s, e + 2, b);
        } else {
          // The only site that can start inside the match at `i` is its elided letter.
          assert b == e + 1 by {
            if IsAscii(s[e]) {
              AsciiSpace(s[e]);
            }
          }
        }
      } else {
        MatchesFromExact(s, i + 1, b);
      }
    }
  }

  /** Matches the scan takes never overlap: after a match it resumes past the
      elided letter, so two recorded positions are at least three apart. */
  lemma {:induction false} MatchesDoNotOverlap(s: String, i: nat, k1: nat, k2: nat)
    requires i <= |s| && k1 in MatchesFrom(s, i) && k2 in MatchesFrom(s, i) && k1 < k2
    ensures k1 + 3 <= k2
    decreases |s| - i
  {
    if ContractionAt(s, i) {
      var e := LetterRunEnd(s, i);
      if k1 == e {
        MatchesFromSound(s, e + 2, k2);
      } else {
        MatchesDoNotOverlap(s, e + 2, k1, k2);
      }
    } else {
      MatchesDoNotOverlap(s, i + 1, k1, k2);
    }
  }

  /** Completeness of the apostrophe step: a match "<letters> <s|m|t|d|l>" with a
      word boundary on both sides is joined with `'` exactly when the character
      before it was not itself joined as the end of the previous match. */
  lemma RestoreApostrophesJoins(s: String, b: nat)
    requires ContractionAt(s, b)
    ensures RestoreApostrophes(s)[LetterRunEnd(s, b)] == '\'' <==> b == 0 || b - 1 !in MatchesFrom(s, 0)
  {
    MatchesFromExact(s, 0, b);
    AsciiSpace('\'');
  }

  /** No match of the pattern has its whitespace character at `k`. */
  predicate NoMatchEndsAt(s: String, k: nat) {
    forall b: nat :: b < k ==> !(ContractionAt(s, b) && LetterRunEnd(s, b) == k)
  }

  /** The usual case: when no match of the pattern ends just before `b`, as in
      "Today I m here", the match at `b` is joined. */
  lemma RestoreApostrophesJoinsAfterWord(s: String, b: nat)
    requires ContractionAt(s, b) && (b == 0 || NoMatchEndsAt(s, b - 1))
    ensures RestoreApostrophes(s)[LetterRunEnd(s, b)] == '\''
  {
    if b > 0 && b - 1 in MatchesFrom(s, 0) {
      MatchesFromSound(s, 0, b - 1);
    }
    RestoreApostrophesJoins(s, b);
  }

  // ---------------------------------------------------------------------------
  // Text that is already clean

  /** No position of `s` starts a match of the apostrophe pattern. */
  predicate NoContraction(s: String) {
    forall b: nat :: b < |s| ==> !ContractionAt(s, b)
  }

  /** The shape `clean_text` promises: ASCII, trimmed, single plain spaces. */
  predicate Clean(s: String) {
    && AllAscii(s)
    && SingleSpaced(s)
    && PlainSpaces(s)
    && (s != [] ==> !IsSpace(s[0]) && !IsSpace(s[|s| - 1]))
  }

  /** The apostrophe step finds nothing where no position starts a match. */
  lemma RestoreApostrophesWithoutMatch(s: String)
    requires NoContraction(s)
    ensures RestoreApostrophes(s) == s
  {
    forall k | k in MatchesFrom(s, 0) ensures false {
      MatchesFromSound(s, 0, k);
    }
  }

  lemma {:induction false} ReplaceNonAsciiFromAscii(s: String, i: nat)
    requires i <= |s| && AllAscii(s)
    ensures ReplaceNonAsciiFrom(s, i) == s[i..]
    decreases |s| - i
  {
    if i < |s| {
      ReplaceNonAsciiFromAscii(s, i + 1);
    }
  }

  /** Step 2 keeps ASCII text as it is. */
  lemma ReplaceNonAsciiOfAscii(s: String)
    requires AllAscii(s)
    ensures ReplaceNonAscii(s) == s
  {
    ReplaceNonAsciiFromAscii(s, 0);
  }

  lemma {:induction false} CollapseFromSingleSpaced(s: String, i: nat)
    requires i <= |s| && SingleSpaced(s) && PlainSpaces(s)
    ensures CollapseFrom(s, i) == s[i..]
    decreases |s| - i
  {
    if i < |s| {
      if IsSpace(s[i]) {
        assert i + 1 < |s| ==> !IsSpace(s[i + 1]);
        assert SkipSpaces(s, i) == i + 1 by {
          assert SkipSpaces(s, i) == SkipSpaces(s, i + 1);
        }
      }
      CollapseFromSingleSpaced(s, i + 1);
    }
  }

  /** Step 3a keeps text that is already single-spaced with plain spaces. */
  lemma CollapseOfSingleSpaced(s: String)
    requires SingleSpaced(s) && PlainSpaces(s)
    ensures CollapseSpaces(s) == s
  {
    CollapseFromSingleSpaced(s, 0);
  }

  // ---------------------------------------------------------------------------
  // Steps 2 and 3a are fixed by three laws each: a rewrite of `x + y` is the
  // rewrite of `x` followed by that of `y` when the seam is not inside a run,
  // a whole run becomes one space, and text without a run is kept.

  lemma {:induction false} NonAsciiRunEndShift(p: String, t: String, k: nat)
    requires k <= |t|
    ensures NonAsciiRunEnd(p + t, |p| + k) == |p| + NonAsciiRunEnd(t, k)
    decreases |t| - k
  {
    if k < |t| {
      assert (p + t)[|p| + k] == t[k];
      NonAsciiRunEndShift(p, t, k + 1);
    }
  }

  lemma {:induction false} NonAsciiRunEndAppend(x: String, y: String, i: nat)
    requires i <= |x|
    requires NonAsciiRunEnd(x, i) < |x| || y == [] || IsAscii(y[0])
    ensures NonAsciiRunEnd(x + y, i) == NonAsciiRunEnd(x, i)
    decreases |x| - i
  {
    if i < |x| {
      assert (x + y)[i] == x[i];
      if !IsAscii(x[i]) {
        NonAsciiRunEndAppend(x, y, i + 1);
      }
    } else if y != [] {
      assert (x + y)[i] == y[0];
    }
  }

  lemma {:induction false} ReplaceNonAsciiFromShift(p: String, t: String, k: nat)
    requires k <= |t|
    ensures ReplaceNonAsciiFrom(p + t, |p| + k) == ReplaceNonAsciiFrom(t, k)
    decreases |t| - k
  {
    if k < |t| {
      assert (p + t)[|p| + k] == t[k];
      var j := if IsAscii(t[k]) then k + 1 else NonAsciiRunEnd(t, k);
      if !IsAscii(t[k]) {
        NonAsciiRunEndShift(p, t, k);
      }
      ReplaceNonAsciiFromShift(p, t, j);
      var c := if IsAscii(t[k]) then t[k] else ' ';
      calc {
        ReplaceNonAsciiFrom(p + t, |p| + k);
        [c] + ReplaceNonAsciiFrom(p + t, |p| + j);
        [c] + ReplaceNonAsciiFrom(t, j);
      }
    }
  }

  lemma {:induction false} ReplaceNonAsciiFromAppend(x: String, y: String, i: nat)
    requires i <= |x|
    requires x == [] || y == [] || IsAscii(x[|x| - 1]) || IsAscii(y[0])
    ensures ReplaceNonAsciiFrom(x + y, i) == ReplaceNonAsciiFrom(x, i) + ReplaceNonAsciiFrom(y, 0)
    decreases |x| - i
  {
    if i == |x| {
      ReplaceNonAsciiFromShift(x, y, 0);
    } else {
      assert (x + y)[i] == x[i];
      var j := if IsAscii(x[i]) then i + 1 else NonAsciiRunEnd(x, i);
      if !IsAscii(x[i]) {
        NonAsciiRunEndAppend(x, y, i);
      }
      ReplaceNonAsciiFromAppend(x, y, j);
      var c := if IsAscii(x[i]) then x[i] else ' ';
      calc {
        ReplaceNonAsciiFrom(x + y, i);
        [c] + ReplaceNonAsciiFrom(x + y, j);
        [c] + (ReplaceNonAsciiFrom(x, j) + ReplaceNonAsciiFrom(y, 0));
        ([c] + ReplaceNonAsciiFrom(x, j)) + ReplaceNonAsciiFrom(y, 0);
      }
    }
  }

  /** Step 2 rewrites `x + y` piece by piece when `x` ends or `y` starts with an
      ASCII character, so no run of non-ASCII characters straddles the seam. */
  lemma ReplaceNonAsciiAppend(x: String, y: String)
    requires x == [] || y == [] || IsAscii(x[|x| - 1]) || IsAscii(y[0])
    ensures ReplaceNonAscii(x + y) == ReplaceNonAscii(x) + ReplaceNonAscii(y)
  {
    ReplaceNonAsciiFromAppend(x, y, 0);
  }

  /** A non-empty run of non-ASCII characters becomes exactly one space. */
  lemma ReplaceNonAsciiOfRun(u: String)
    requires u != [] && forall k :: 0 <= k < |u| ==> !IsAscii(u[k])
    ensures ReplaceNonAscii(u) == " "
  {
    assert NonAsciiRunEnd(u, 0) == |u| by {
      NonAsciiRunEndAll(u, 0);
    }
  }

  lemma {:induction false} NonAsciiRunEndAll(u: String, i: nat)
    requires i <= |u| && forall k :: i <= k < |u| ==> !IsAscii(u[k])
    ensures NonAsciiRunEnd(u, i) == |u|
    decreases |u| - i
  {
    if i < |u| {
      NonAsciiRunEndAll(u, i + 1);
    }
  }

  lemma {:induction false} CollapseFromShift(p: String, t: String, k: nat)
    requires k <= |t|
    ensures CollapseFrom(p + t, |p| + k) == CollapseFrom(t, k)
    decreases |t| - k
  {
    if k < |t| {
      assert (p + t)[|p| + k] == t[k];
      var j := if IsSpace(t[k]) then SkipSpaces(t, k) else k + 1;
      if IsSpace(t[k]) {
        SkipSpacesShift(p, t, k);
      }
      CollapseFromShift(p, t, j);
      var c := if IsSpace(t[k]) then ' ' else t[k];
      calc {
        CollapseFrom(p + t, |p| + k);
        [c] + CollapseFrom(p + t, |p| + j);
        [c] + CollapseFrom(t, j);
      }
    }
  }

  lemma {:induction false} CollapseFromAppend(x: String, y: String, i: nat)
    requires i <= |x|
    requires x == [] || y == [] || !IsSpace(x[|x| - 1]) || !IsSpace(y[0])
    ensures CollapseFrom(x + y, i) == CollapseFrom(x, i) + CollapseFrom(y, 0)
    decreases |x| - i
  {
    if i == |x| {
      CollapseFromShift(x, y, 0);
    } else {
      assert (x + y)[i] == x[i];
      var j := if IsSpace(x[i]) then SkipSpaces(x, i) else i + 1;
      if IsSpace(x[i]) {
        SkipSpacesSkipsSpaces(x, i);
        SkipSpacesAppend(x, y, i);
      }
      CollapseFromAppend(x, y, j);
      var c := if IsSpace(x[i]) then ' ' else x[i];
      calc {
        CollapseFrom(x + y, i);
        [c] + CollapseFrom(x + y, j);
        [c] + (CollapseFrom(x, j) + CollapseFrom(y, 0));
        ([c] + CollapseFrom(x, j)) + CollapseFrom(y, 0);
      }
    }
  }

  /** Step 3a rewrites `x + y` piece by piece when `x` ends or `y` starts with a
      character other than whitespace, so no whitespace run straddles the seam. */
  lemma CollapseAppend(x: String, y: String)
    requires x == [] || y == [] || !IsSpace(x[|x| - 1]) || !IsSpace(y[0])
    ensures CollapseSpaces(x + y) == CollapseSpaces(x) + CollapseSpaces(y)
  {
    CollapseFromAppend(x, y, 0);
  }

  /** A non-empty run of whitespace becomes exactly one plain space. */
  lemma CollapseOfRun(u: String)
    requires u != [] && AllSpace(u)
    ensures CollapseSpaces(u) == " "
  {
    SkipSpacesFrom(u, 0, |u|);
  }

  /** `clean_text` leaves clean text without an apostrophe site unchanged. */
  lemma CleanTextFixpoint(s: String)
    requires Clean(s) && NoContraction(s)
    ensures CleanText(s) == s
  {
    RestoreApostrophesWithoutMatch(s);
    ReplaceNonAsciiOfAscii(s);
    CollapseOfSingleSpaced(s);
  }

  /** A scan from `i` finds some match when a match of the pattern starts at or
      after `i`. */
  lemma {:induction false} MatchesFromFindsOne(s: String, i: nat, b: nat)
    requires i <= b && ContractionAt(s, b)
    ensures MatchesFrom(s, i) != {}
    decreases b - i
  {
    if i < b && !ContractionAt(s, i) {
      MatchesFromFindsOne(s, i + 1, b);
    }
  }

  /** The apostrophe step keeps clean text clean: it only turns interior spaces
      into `'`. */
  lemma RestoreApostrophesKeepsClean(s: String)
    requires Clean(s)
    ensures Clean(RestoreApostrophes(s))
  {
    AsciiSpace('\'');
    forall k | k in MatchesFrom(s, 0) ensures 0 < k < |s| - 1 && IsSpace(s[k]) {
      MatchesFromSound(s, 0, k);
    }
  }

  /** When the apostrophe step already yields clean text, that is the result. */
  lemma CleanTextOfCleanJoin(s: String)
    requires Clean(RestoreApostrophes(s))
    ensures CleanText(s) == RestoreApostrophes(s)
  {
    var r := RestoreApostrophes(s);
    ReplaceNonAsciiOfAscii(r);
    CollapseOfSingleSpaced(r);
  }

  /** `clean_text` is idempotent on an input exactly when its result holds no
      apostrophe site; otherwise the second pass joins one more. */
  lemma CleanTextTwice(s: String)
    ensures CleanText(CleanText(s)) == CleanText(s) <==> NoContraction(CleanText(s))
  {
    var c := CleanText(s);
    if NoContraction(c) {
      CleanTextFixpoint(c);
    } else {
      var b: nat :| b < |c| && ContractionAt(c, b);
      MatchesFromFindsOne(c, 0, b);
      var k :| k in MatchesFrom(c, 0);
      MatchesFromSound(c, 0, k);
      AsciiSpace('\'');
      RestoreApostrophesKeepsClean(c);
      CleanTextOfCleanJoin(c);
      assert RestoreApostrophes(c)[k] != c[k];
    }
  }

  /** In "Trump s speech" a contraction starts at "Trump", whose letter run ends
      at position 5. */
  lemma TrumpContraction(s: String)
    requires s == "Trump s speech"
    ensures ContractionAt(s, 0) && LetterRunEnd(s, 0) == 5
  {
    assert s[5] == ' ' && s[6] == 's' && s[7] == ' ';
    assert LetterRunEnd(s, 5) == 5;
    assert LetterRunEnd(s, 3) == 5 by { assert LetterRunEnd(s, 4) == 5; }
    assert LetterRunEnd(s, 1) == 5 by { assert LetterRunEnd(s, 2) == 5; }
    AsciiSpace(' ');
    AsciiWordChar(' ');
  }

  /** No contraction starts after position 7 of "Trump s speech". */
  lemma TrumpTail(s: String)
    requires s == "Trump s speech"
    ensures MatchesFrom(s, 7) == {}
  {
    forall k | k in MatchesFrom(s, 7) ensures false {
      MatchesFromSound(s, 7, k);
    }
  }

  /** The apostrophe step turns "Trump s speech" into "Trump's speech". */
  lemma TrumpJoin(s: String)
    requires s == "Trump s speech"
    ensures RestoreApostrophes(s) == "Trump's speech"
  {
    TrumpMatches(s);
    var r := RestoreApostrophes(s);
    forall k | 0 <= k < |s| ensures r[k] == "Trump's speech"[k] {
    }
  }

  /** The scan of "Trump s speech" takes the one site, at position 5. */
  lemma TrumpMatches(s: String)
    requires s == "Trump s speech"
    ensures MatchesFrom(s, 0) == {5}
  {
    TrumpContraction(s);
    TrumpTail(s);
  }

  lemma TrumpClean(r: String)
    requires r == "Trump's speech"
    ensures Clean(r)
  {
    forall k | 0 <= k < |r| ensures IsAscii(r[k]) && (IsSpace(r[k]) <==> k == 7) {
      AsciiSpace(r[k]);
    }
  }

  /** "Trump s speech" is cleaned into "Trump's speech". */
  lemma TrumpsSpeech()
    ensures CleanText("Trump s speech") == "Trump's speech"
  {
    TrumpJoin("Trump s speech");
    TrumpClean("Trump's speech");
    CleanTextOfCleanJoin("Trump s speech");
  }

  /** "it  s" holds no apostrophe site, since the pattern allows exactly one
      whitespace character; the collapse step then leaves "it s". */
  lemma SpacedContraction(s: String)
    requires s == "it  s"
    ensures CleanText(s) == "it s"
  {
    AsciiSpace(' ');
    assert LetterRunEnd(s, 0) == 2 by { assert LetterRunEnd(s, 1) == 2; }
    assert LetterRunEnd(s, 4) == 5;
    assert NoContraction(s);
    RestoreApostrophesWithoutMatch(s);
    ReplaceNonAsciiOfAscii(s);
    AsciiSpace('i');
    AsciiSpace('t');
    AsciiSpace('s');
    assert SkipSpaces(s, 2) == 4 by {
      assert SkipSpaces(s, 4) == 4;
      assert SkipSpaces(s, 3) == 4;
    }
    assert CollapseFrom(s, 2) == " s" by { assert CollapseFrom(s, 4) == "s"; }
    assert CollapseFrom(s, 0) == "it s" by { assert CollapseFrom(s, 1) == "t s"; }
  }

  /** The apostrophe step turns "it s" into "it's". */
  lemma ItsJoin(s: String)
    requires s == "it s"
    ensures RestoreApostrophes(s) == "it's"
  {
    ItsMatches(s);
    var r := RestoreApostrophes(s);
    forall k | 0 <= k < |s| ensures r[k] == "it's"[k] {
    }
  }

  /** "it s" holds exactly one apostrophe site, at position 2. */
  lemma ItsMatches(s: String)
    requires s == "it s"
    ensures MatchesFrom(s, 0) == {2}
  {
    AsciiSpace(' ');
    AsciiWordChar(' ');
    assert LetterRunEnd(s, 0) == 2 by { assert LetterRunEnd(s, 1) == 2; }
    assert ContractionAt(s, 0);
    forall k | k in MatchesFrom(s, 3) ensures false {
      MatchesFromSound(s, 3, k);
    }
  }

  lemma ItsClean(r: String)
    requires r == "it's"
    ensures Clean(r)
  {
    AsciiSpace('\'');
    forall k | 0 <= k < |r| ensures IsAscii(r[k]) && !IsSpace(r[k]) {
      AsciiSpace(r[k]);
    }
  }

  /** "it s" holds one apostrophe site and is cleaned into "it's". */
  lemma JoinedContraction(s: String)
    requires s == "it s"
    ensures CleanText(s) == "it's"
  {
    ItsJoin(s);
    ItsClean("it's");
    CleanTextOfCleanJoin(s);
  }

  /** `clean_text` is not idempotent: "it  s" is cleaned into "it s", which a
      second pass turns into "it's". */
  lemma CleanTextNotIdempotent()
    ensures CleanText("it  s") == "it s"
    ensures CleanText(CleanText("it  s")) == "it's"
  {
    SpacedContraction("it  s");
    JoinedContraction("it s");
  }

  /** "naïve" holds a run of one non-ASCII character, which becomes a space. */
  lemma NonAsciiRunBecomesSpace(s: String)
    requires s == "na\U{EF}ve"
    ensures CleanText(s) == "na ve"
  {
    LatinLetter(s[2]);
    assert LetterRunEnd(s, 0) == 2 by { assert LetterRunEnd(s, 1) == 2; }
    assert NoContraction(s);
    RestoreApostrophesWithoutMatch(s);
    assert NonAsciiRunEnd(s, 2) == 3;
    assert ReplaceNonAsciiFrom(s, 3) == "ve" by { assert ReplaceNonAsciiFrom(s, 4) == "e"; }
    var r := ReplaceNonAscii(s);
    assert r == "na ve" by { assert ReplaceNonAsciiFrom(s, 1) == "a ve"; }
    forall k | 0 <= k < |r| ensures IsSpace(r[k]) <==> k == 2 {
      AsciiSpace(r[k]);
    }
    CollapseOfSingleSpaced(r);
  }
}
