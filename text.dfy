/**
 * Character classes and the plain string operations of Python's `str` that the
 * pipeline relies on: `isspace`, `strip`, `split`, `lower`, `in` and slicing.
 * A Python `str` is a sequence of code points; here it is `seq<char>`, whose
 * elements are Unicode scalar values.
 */
module Text {
  type String = seq<char>

  /** Python's whitespace: the one class used by `str.isspace`, `str.split()`,
      `str.strip()` and the `\s` of `re` on str patterns. */
  predicate IsSpace(c: char) {
    InRanges(c as int, SpaceRanges)
  }

  /** True when `n` lies in one of the inclusive ranges `rs`. */
  predicate InRanges(n: int, rs: seq<(int, int)>) {
    rs != [] && (rs[0].0 <= n <= rs[0].1 || InRanges(n, rs[1..]))
  }

  const SpaceRanges: seq<(int, int)> :=
    [(0x20, 0x20), (0x09, 0x0D), (0x1C, 0x1F), (0x85, 0x85), (0xA0, 0xA0), (0x1680, 0x1680),
     (0x2000, 0x200A), (0x2028, 0x2029), (0x202F, 0x202F), (0x205F, 0x205F), (0x3000, 0x3000)]

  /** Among ASCII characters, `IsSpace` holds of exactly the space, TAB, LF, VT,
      FF, CR and the four separators U+001C..U+001F. */
  lemma AsciiSpace(c: char)
    requires IsAscii(c)
    ensures IsSpace(c) <==> c == ' ' || '\t' <= c <= '\r' || '\U{1C}' <= c <= '\U{1F}'
  {
    var rs := SpaceRanges;
    assert InRanges(c as int, rs) <==> c == ' ' || InRanges(c as int, rs[1..]);
    assert InRanges(c as int, rs[1..]) <==> '\t' <= c <= '\r' || InRanges(c as int, rs[2..]);
    assert InRanges(c as int, rs[2..]) <==> '\U{1C}' <= c <= '\U{1F}' || InRanges(c as int, rs[3..]);
    NoRangeBelow(c as int, rs[3..]);
  }

  /** The whitespace characters listed one by one: U+0009..U+000D, U+001C..U+001F,
      the space, U+0085, U+00A0, U+1680, U+2000..U+200A, U+2028, U+2029, U+202F,
      U+205F and U+3000. */
  const SpaceChars: set<char> :=
    {'\t', '\n', '\U{0B}', '\U{0C}', '\r', '\U{1C}', '\U{1D}', '\U{1E}', '\U{1F}', ' ',
     '\U{85}', '\U{A0}', '\U{1680}', '\U{2000}', '\U{2001}', '\U{2002}', '\U{2003}',
     '\U{2004}', '\U{2005}', '\U{2006}', '\U{2007}', '\U{2008}', '\U{2009}', '\U{200A}',
     '\U{2028}', '\U{2029}', '\U{202F}', '\U{205F}', '\U{3000}'}

  /** `IsSpace` holds of exactly the 29 characters of `SpaceChars`. */
  lemma SpaceCharacters(c: char)
    ensures IsSpace(c) <==> c in SpaceChars
  {
    var n := c as int;
    SpaceRangesLow(n, SpaceRanges);
    SpaceRangesHigh(n, SpaceRanges[6..]);
    if 0x2000 <= n <= 0x200A {
      assert c in SpaceChars by { HighSpaceChar(c); }
    }
  }

  lemma HighSpaceChar(c: char)
    requires 0x2000 <= c as int <= 0x200A
    ensures c in SpaceChars
  {
    var k := c as int - 0x2000;
    assert c == ['\U{2000}', '\U{2001}', '\U{2002}', '\U{2003}', '\U{2004}', '\U{2005}',
                 '\U{2006}', '\U{2007}', '\U{2008}', '\U{2009}', '\U{200A}'][k];
  }

  lemma SpaceRangesLow(n: int, rs: seq<(int, int)>)
    requires rs == SpaceRanges
    ensures InRanges(n, rs) <==>
      n == 0x20 || 0x09 <= n <= 0x0D || 0x1C <= n <= 0x1F || n == 0x85 || n == 0xA0 || n == 0x1680
      || InRanges(n, rs[6..])
  {
    assert InRanges(n, rs) <==> n == 0x20 || InRanges(n, rs[1..]);
    assert InRanges(n, rs[1..]) <==> 0x09 <= n <= 0x0D || InRanges(n, rs[2..]);
    assert InRanges(n, rs[2..]) <==> 0x1C <= n <= 0x1F || InRanges(n, rs[3..]);
    assert InRanges(n, rs[3..]) <==> n == 0x85 || InRanges(n, rs[4..]);
    assert InRanges(n, rs[4..]) <==> n == 0xA0 || InRanges(n, rs[5..]);
    assert InRanges(n, rs[5..]) <==> n == 0x1680 || InRanges(n, rs[6..]);
  }

  lemma SpaceRangesHigh(n: int, rs: seq<(int, int)>)
    requires rs == SpaceRanges[6..]
    ensures InRanges(n, rs) <==>
      0x2000 <= n <= 0x200A || n == 0x2028 || n == 0x2029 || n == 0x202F || n == 0x205F || n == 0x3000
  {
    assert InRanges(n, rs) <==> 0x2000 <= n <= 0x200A || InRanges(n, rs[1..]);
    assert InRanges(n, rs[1..]) <==> 0x2028 <= n <= 0x2029 || InRanges(n, rs[2..]);
    assert InRanges(n, rs[2..]) <==> n == 0x202F || InRanges(n, rs[3..]);
    assert InRanges(n, rs[3..]) <==> n == 0x205F || InRanges(n, rs[4..]);
    assert InRanges(n, rs[4..]) <==> n == 0x3000;
  }

  /** No range of `rs` reaches below its first lower bound when the lower bounds grow. */
  lemma {:induction false} NoRangeBelow(n: int, rs: seq<(int, int)>)
    requires forall k :: 0 <= k < |rs| ==> n < rs[k].0
    ensures !InRanges(n, rs)
  {
    if rs != [] { NoRangeBelow(n, rs[1..]); }
  }

  /** Among ASCII characters, `IsWordChar` holds of exactly letters, digits and `_`. */
  lemma AsciiWordChar(c: char)
    requires IsAscii(c)
    ensures IsWordChar(c) <==> IsAsciiLetter(c) || IsAsciiDigit(c) || c == '_'
  {
    NoRangeBelow(c as int, WordRanges);
  }

  /** The Latin-1 letters U+00C0..U+00FF (all but the signs U+00D7 and U+00F7)
      are word characters and not whitespace. */
  lemma LatinLetter(c: char)
    requires 0xC0 <= c as int <= 0xFF && c as int != 0xD7 && c as int != 0xF7
    ensures !IsSpace(c) && IsWordChar(c)
  {
    LatinNotSpace(c as int, SpaceRanges);
    LatinWordChar(c as int, WordRanges);
  }

  lemma LatinNotSpace(n: int, rs: seq<(int, int)>)
    requires 0xC0 <= n <= 0xFF && rs == SpaceRanges
    ensures !InRanges(n, rs)
  {
    assert InRanges(n, rs) == InRanges(n, rs[1..]);
    assert InRanges(n, rs[1..]) == InRanges(n, rs[2..]);
    assert InRanges(n, rs[2..]) == InRanges(n, rs[3..]);
    assert InRanges(n, rs[3..]) == InRanges(n, rs[4..]);
    assert InRanges(n, rs[4..]) == InRanges(n, rs[5..]);
    NoRangeBelow(n, rs[5..]);
  }

  lemma LatinWordChar(n: int, ws: seq<(int, int)>)
    requires 0xC0 <= n <= 0xFF && n != 0xD7 && n != 0xF7 && ws == WordRanges
    ensures InRanges(n, ws)
  {
    if n <= 0xD6 {
      InRangesAt(n, ws, 5);
    } else if n <= 0xF6 {
      InRangesAt(n, ws, 6);
    } else {
      InRangesAt(n, ws, 7);
    }
  }

  /** A number inside the `k`-th range is inside the ranges. */
  lemma {:induction false} InRangesAt(n: int, rs: seq<(int, int)>, k: nat)
    requires k < |rs| && rs[k].0 <= n <= rs[k].1
    ensures InRanges(n, rs)
  {
    if k > 0 {
      InRangesAt(n, rs[1..], k - 1);
    }
  }

  predicate IsAscii(c: char) { c as int < 0x80 }
  predicate IsAsciiLower(c: char) { 'a' <= c <= 'z' }
  predicate IsAsciiUpper(c: char) { 'A' <= c <= 'Z' }
  predicate IsAsciiLetter(c: char) { IsAsciiLower(c) || IsAsciiUpper(c) }
  predicate IsAsciiDigit(c: char) { '0' <= c <= '9' }

  /** The `\w` class of `re` on str patterns (alphanumerics and `_`), which decides
      where `\b` holds. Exact below U+0100; above it every character except the
      whitespace characters and the General Punctuation block U+2000..U+206F counts
      as a word character. */
  predicate IsWordChar(c: char) {
    IsAsciiLetter(c) || IsAsciiDigit(c) || c == '_' || InRanges(c as int, WordRanges)
  }

  const WordRanges: seq<(int, int)> :=
    [(0xAA, 0xAA), (0xB2, 0xB3), (0xB5, 0xB5), (0xB9, 0xBA), (0xBC, 0xBE),
     (0xC0, 0xD6), (0xD8, 0xF6), (0xF8, 0x167F), (0x1681, 0x1FFF), (0x2070, 0x2FFF),
     (0x3001, 0x10FFFF)]

  /** `str.upper` / `str.lower` on one ASCII letter; any other character is kept. */
  function ToUpper(c: char): char {
    if IsAsciiLower(c) then (c as int - 32) as char else c
  }

  function ToLower(c: char): char {
    if IsAsciiUpper(c) then (c as int + 32) as char else c
  }

  /** `str.lower` restricted to ASCII: every ASCII capital becomes its small
      letter and every other character is kept, so no ASCII capital is left. */
  function Lower(s: String): (r: String)
    ensures |r| == |s|
    ensures forall k :: 0 <= k < |s| ==> !IsAsciiUpper(r[k])
    ensures forall k :: 0 <= k < |s| ==> (r[k] == s[k] <==> !IsAsciiUpper(s[k]))
    ensures forall k :: 0 <= k < |s| && IsAsciiUpper(s[k]) ==> IsAsciiLower(r[k]) && ToUpper(r[k]) == s[k]
  {
    seq(|s|, k requires 0 <= k < |s| => ToLower(s[k]))
  }

  predicate AllSpace(s: String) {
    forall k :: 0 <= k < |s| ==> IsSpace(s[k])
  }

  predicate StartsWith(s: String, prefix: String) {
    |prefix| <= |s| && s[..|prefix|] == prefix
  }

  /** Python's `sub in s`. */
  predicate Contains(s: String, sub: String)
    decreases |s|
  {
    |sub| <= |s| && (s[..|sub|] == sub || (s != [] && Contains(s[1..], sub)))
  }

  /** `s.startswith(p)` holds exactly when `s` is `p` followed by something. */
  lemma StartsWithConcat(s: String, p: String)
    ensures StartsWith(s, p) <==> exists t :: s == p + t
  {
    if StartsWith(s, p) {
      assert s == p + s[|p|..];
    }
  }

  /** `sub` occurs in `s` starting at position `p`. */
  predicate OccursAt(s: String, sub: String, p: nat) {
    p + |sub| <= |s| && s[p..p + |sub|] == sub
  }

  /** `sub in s` holds exactly when `sub` occurs at some position of `s`. */
  lemma {:induction false} ContainsAt(s: String, sub: String)
    ensures Contains(s, sub) <==> exists p: nat :: OccursAt(s, sub, p)
    decreases |s|
  {
    if |sub| <= |s| && s != [] {
      ContainsAt(s[1..], sub);
      if s[..|sub|] == sub {
        assert OccursAt(s, sub, 0);
      }
      if Contains(s[1..], sub) {
        var p: nat :| OccursAt(s[1..], sub, p);
        assert s[p + 1..p + 1 + |sub|] == s[1..][p..p + |sub|];
        assert OccursAt(s, sub, p + 1);
      }
      if exists p: nat :: OccursAt(s, sub, p) {
        var p: nat :| OccursAt(s, sub, p);
        if p > 0 {
          assert s[1..][p - 1..p - 1 + |sub|] == s[p..p + |sub|];
          assert OccursAt(s[1..], sub, p - 1);
        } else {
          assert s[..|sub|] == s[0..|sub|];
        }
      }
    } else if |sub| <= |s| {
      assert s[..|sub|] == sub && OccursAt(s, sub, 0);
    }
  }

  /** Python's `s[:n]`. */
  function Take(s: String, n: nat): (r: String)
    ensures |r| == if n < |s| then n else |s|
    ensures r == s[..|r|]
  {
    if n < |s| then s[..n] else s
  }

  /** First index at or after `i` that does not hold whitespace. */
  function SkipSpaces(s: String, i: nat): (j: nat)
    requires i <= |s|
    ensures i <= j <= |s|
    ensures j < |s| ==> !IsSpace(s[j])
    decreases |s| - i
  {
    if i < |s| && IsSpace(s[i]) then SkipSpaces(s, i + 1) else i
  }

  /** Everything `SkipSpaces` passes over is whitespace. */
  lemma {:induction false} SkipSpacesSkipsSpaces(s: String, i: nat)
    requires i <= |s|
    ensures forall k :: i <= k < SkipSpaces(s, i) ==> IsSpace(s[k])
    decreases |s| - i
  {
    if i < |s| && IsSpace(s[i]) {
      SkipSpacesSkipsSpaces(s, i + 1);
    }
  }

  /** Skipping whitespace from `i` reaches the same place as skipping from any
      `j` in between, when `s[i..j]` is all whitespace. */
  lemma {:induction false} SkipSpacesFrom(s: String, i: nat, j: nat)
    requires i <= j <= |s|
    requires forall k :: i <= k < j ==> IsSpace(s[k])
    ensures SkipSpaces(s, i) == SkipSpaces(s, j)
    decreases j - i
  {
    if i < j {
      SkipSpacesFrom(s, i + 1, j);
    }
  }

  /** Start of the run of whitespace that ends at `j`, never going below `lo`. */
  function BackOverSpaces(s: String, lo: nat, j: nat): (e: nat)
    requires lo <= j <= |s|
    ensures lo <= e <= j
    ensures forall k :: e <= k < j ==> IsSpace(s[k])
    ensures e > lo ==> !IsSpace(s[e - 1])
    decreases j - lo
  {
    if j > lo && IsSpace(s[j - 1]) then BackOverSpaces(s, lo, j - 1) else j
  }

  function StripStart(s: String): nat
    ensures StripStart(s) <= |s|
  {
    SkipSpaces(s, 0)
  }

  function StripEnd(s: String): nat
    ensures StripStart(s) <= StripEnd(s) <= |s|
  {
    BackOverSpaces(s, StripStart(s), |s|)
  }

  /** `str.strip()`: the slice of `s` left after dropping its leading and
      trailing whitespace; it is empty exactly when `s` is all whitespace. */
  function Strip(s: String): (r: String)
    ensures exists a, b :: 0 <= a <= b <= |s| && r == s[a..b] && AllSpace(s[..a]) && AllSpace(s[b..])
    ensures r != [] ==> !IsSpace(r[0]) && !IsSpace(r[|r| - 1])
    ensures r == [] <==> AllSpace(s)
    ensures s != [] && !IsSpace(s[|s| - 1]) ==> r != [] && r[|r| - 1] == s[|s| - 1]
    ensures s != [] && !IsSpace(s[0]) ==> r != [] && r[0] == s[0]
  {
    var a, b := StripStart(s), StripEnd(s);
    SkipSpacesSkipsSpaces(s, 0);
    assert AllSpace(s[..a]) && AllSpace(s[b..]);
    s[a..b]
  }

  /** End of the run of non-whitespace characters that starts at `i`. */
  function WordEnd(s: String, i: nat): (j: nat)
    requires i <= |s|
    ensures i <= j <= |s|
    ensures j == |s| || IsSpace(s[j])
    decreases |s| - i
  {
    if i < |s| && !IsSpace(s[i]) then WordEnd(s, i + 1) else i
  }

  /** Everything `WordEnd` passes over is other than whitespace. */
  lemma {:induction false} WordEndSkipsWord(s: String, i: nat)
    requires i <= |s|
    ensures forall k :: i <= k < WordEnd(s, i) ==> !IsSpace(s[k])
    decreases |s| - i
  {
    if i < |s| && !IsSpace(s[i]) {
      WordEndSkipsWord(s, i + 1);
    }
  }

  /** A token of `str.split()`: non-empty and free of whitespace. */
  predicate IsWord(w: String) {
    w != [] && forall k :: 0 <= k < |w| ==> !IsSpace(w[k])
  }

  /** `str.split()` with no separator: the maximal runs of non-whitespace
      characters, in order. Whitespace is passed over one character at a
      time; a token runs from a non-whitespace character to `WordEnd`. */
  function Split(s: String): seq<String>
    decreases |s|
  {
    if s == [] then
      []
    else if IsSpace(s[0]) then
      Split(s[1..])
    else
      var e := WordEnd(s, 0);
      [s[..e]] + Split(s[e..])
  }

  /** Every token of `str.split()` is non-empty and free of whitespace. */
  lemma {:induction false} SplitWords(s: String)
    ensures forall w :: w in Split(s) ==> IsWord(w)
    decreases |s|
  {
    if s != [] {
      if IsSpace(s[0]) {
        SplitWords(s[1..]);
      } else {
        WordEndSkipsWord(s, 0);
        SplitWords(s[WordEnd(s, 0)..]);
      }
    }
  }

  /** `len(s.split())`. */
  function WordCount(s: String): nat {
    |Split(s)|
  }

  // ---------------------------------------------------------------------------
  // Scans over a concatenation

  /** A scan for whitespace started inside `t` ignores what stands before `t`. */
  lemma {:induction false} SkipSpacesShift(p: String, t: String, k: nat)
    requires k <= |t|
    ensures SkipSpaces(p + t, |p| + k) == |p| + SkipSpaces(t, k)
    decreases |t| - k
  {
    if k < |t| {
      assert (p + t)[|p| + k] == t[k];
      SkipSpacesShift(p, t, k + 1);
    }
  }

  /** A scan for whitespace that stops inside `x`, or that reaches the end of
      `x` where `y` starts with a non-whitespace character, is not affected by `y`. */
  lemma {:induction false} SkipSpacesAppend(x: String, y: String, i: nat)
    requires i <= |x|
    requires SkipSpaces(x, i) < |x| || y == [] || !IsSpace(y[0])
    ensures SkipSpaces(x + y, i) == SkipSpaces(x, i)
    decreases |x| - i
  {
    if i < |x| {
      assert (x + y)[i] == x[i];
      if IsSpace(x[i]) {
        SkipSpacesAppend(x, y, i + 1);
      }
    } else if y != [] {
      assert (x + y)[i] == y[0];
    }
  }

  lemma {:induction false} WordEndAppend(x: String, y: String, i: nat)
    requires i <= |x|
    requires WordEnd(x, i) < |x| || y == [] || IsSpace(y[0])
    ensures WordEnd(x + y, i) == WordEnd(x, i)
    decreases |x| - i
  {
    if i < |x| {
      assert (x + y)[i] == x[i];
      if !IsSpace(x[i]) {
        WordEndAppend(x, y, i + 1);
      }
    } else if y != [] {
      assert (x + y)[i] == y[0];
    }
  }

  // ---------------------------------------------------------------------------
  // `str.split()`: it is fixed by three laws, since every string is an
  // alternation of whitespace runs and runs of other characters.

  /** `(x + y).split() == x.split() + y.split()` whenever the seam is next to
      whitespace (or either side is empty), so that no token straddles it. */
  lemma {:induction false} SplitAppend(x: String, y: String)
    requires x == [] || y == [] || IsSpace(x[|x| - 1]) || IsSpace(y[0])
    ensures Split(x + y) == Split(x) + Split(y)
    decreases |x|
  {
    if x == [] {
      assert x + y == y;
    } else if IsSpace(x[0]) {
      assert (x + y)[0] == x[0];
      assert (x + y)[1..] == x[1..] + y;
      SplitAppend(x[1..], y);
    } else {
      assert (x + y)[0] == x[0];
      var e := WordEnd(x, 0);
      WordEndSkipsWord(x, 0);
      WordEndAppend(x, y, 0);
      assert (x + y)[..e] == x[..e];
      assert (x + y)[e..] == x[e..] + y;
      SplitAppend(x[e..], y);
      calc {
        Split(x + y);
        [x[..e]] + Split(x[e..] + y);
        [x[..e]] + (Split(x[e..]) + Split(y));
        ([x[..e]] + Split(x[e..])) + Split(y);
        Split(x) + Split(y);
      }
    }
  }

  /** Whitespace alone splits into no tokens. */
  lemma {:induction false} SplitOfSpaces(s: String)
    requires AllSpace(s)
    ensures Split(s) == []
    decreases |s|
  {
    if s != [] {
      SplitOfSpaces(s[1..]);
    }
  }

  /** A non-empty run without whitespace is a single token. */
  lemma SplitOfWord(w: String)
    requires IsWord(w)
    ensures Split(w) == [w]
  {
    assert WordEnd(w, 0) == |w|;
    assert w[..|w|] == w;
    assert w[|w|..] == [];
  }
}
