/**
 * `filter_headlines`: cleans every scraped headline and keeps those with more
 * than two tokens that mention neither "video" nor "advertisement". The
 * pipeline itself never calls it; the dedup loop applies no such filter.
 */
module Headlines {
  import opened Text
  import opened Normalizer

  /** The test a cleaned headline must pass to be kept. */
  predicate KeepHeadline(c: String) {
    && WordCount(c) > 2
    && !Contains(Lower(c), "video")
    && !Contains(Lower(c), "advertisement")
  }

  /** `clean_text` applied to every headline. */
  function CleanAll(headlines: seq<String>): (cs: seq<String>)
    ensures |cs| == |headlines|
    ensures forall k :: 0 <= k < |cs| ==> cs[k] == CleanText(headlines[k])
  {
    seq(|headlines|, k requires 0 <= k < |headlines| => CleanText(headlines[k]))
  }

  /** The cleaned headlines that pass the test, in their order. */
  function Kept(cs: seq<String>): (r: seq<String>)
    ensures |r| <= |cs|
  {
    if cs == [] then
      []
    else
      var c := cs[|cs| - 1];
      Kept(cs[..|cs| - 1]) + (if KeepHeadline(c) then [c] else [])
  }

  /** `filter_headlines` as the source writes it: a loop appending to a list. */
  method FilterHeadlines(headlines: seq<String>) returns (filtered: seq<String>)
    ensures filtered == Kept(CleanAll(headlines))
  {
    ghost var cs := CleanAll(headlines);
    filtered := [];
    for i := 0 to |headlines|
      invariant filtered == Kept(cs[..i])
    {
      var cleaned := CleanText(headlines[i]);
      KeptStep(cs, i);
      if WordCount(cleaned) <= 2 {
        continue;
      }
      if Contains(Lower(cleaned), "video") || Contains(Lower(cleaned), "advertisement") {
        continue;
      }
      filtered := filtered + [cleaned];
    }
    assert cs[..|headlines|] == cs;
  }

  /** One more cleaned headline adds itself to the kept ones exactly when it
      passes the test. */
  lemma KeptStep(cs: seq<String>, i: nat)
    requires i < |cs|
    ensures Kept(cs[..i + 1]) == Kept(cs[..i]) + if KeepHeadline(cs[i]) then [cs[i]] else []
  {
    assert cs[..i + 1][..i] == cs[..i];
  }

  /** Every kept headline passes the test and is one of the cleaned inputs, and
      every cleaned input that passes the test is kept. */
  lemma {:induction false} KeptMembers(cs: seq<String>, c: String)
    ensures c in Kept(cs) <==> KeepHeadline(c) && c in cs
  {
    if cs != [] {
      var init := cs[..|cs| - 1];
      KeptMembers(init, c);
      assert cs == init + [cs[|cs| - 1]];
    }
  }

  /** The positions of the cleaned inputs that are kept, in increasing order. */
  function KeptPositions(cs: seq<String>): (ps: seq<nat>)
    ensures forall j :: 0 <= j < |ps| ==> ps[j] < |cs|
  {
    if cs == [] then
      []
    else
      var n := |cs| - 1;
      KeptPositions(cs[..n]) + (if KeepHeadline(cs[n]) then [n] else [])
  }

  /** The output is an order-preserving subsequence of the cleaned inputs: its
      `j`-th element is the cleaned input at the `j`-th kept position, and the
      kept positions strictly increase. */
  lemma {:induction false} KeptSubsequence(cs: seq<String>)
    ensures |KeptPositions(cs)| == |Kept(cs)|
    ensures forall j :: 0 <= j < |KeptPositions(cs)| ==> Kept(cs)[j] == cs[KeptPositions(cs)[j]]
    ensures forall i, j :: 0 <= i < j < |KeptPositions(cs)| ==> KeptPositions(cs)[i] < KeptPositions(cs)[j]
  {
    if cs != [] {
      var init := cs[..|cs| - 1];
      KeptSubsequence(init);
      assert forall k :: 0 <= k < |init| ==> init[k] == cs[k];
    }
  }
}
