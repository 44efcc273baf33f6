/**
 * The per-site dedup loop of `process_news`: every scraped headline is cleaned,
 * its link is resolved (only for the Guardian), and an article is kept only when
 * its resolved link has not been seen before on that site.
 */
module Dedup {
  import opened Text
  import opened Normalizer
  import opened Links

  /** A scraped headline/link pair, as the scrapers return it. */
  datatype Scraped = Scraped(headline: String, link: String)

  /** An article kept by the dedup loop: cleaned headline, resolved link. */
  datatype Candidate = Candidate(headline: String, link: String)

  function Resolved(site: String, a: Scraped): String {
    ResolveLink(site, a.link)
  }

  function ToCandidate(site: String, a: Scraped): Candidate {
    Candidate(CleanText(a.headline), Resolved(site, a))
  }

  /** The set of links of a list of candidates. */
  function LinksOf(cs: seq<Candidate>): (links: set<String>)
    ensures forall j :: 0 <= j < |cs| ==> cs[j].link in links
    ensures forall l :: l in links ==> exists j :: 0 <= j < |cs| && cs[j].link == l
  {
    set j | 0 <= j < |cs| :: cs[j].link
  }

  lemma LinksOfAppend(cs: seq<Candidate>, c: Candidate)
    ensures LinksOf(cs + [c]) == LinksOf(cs) + {c.link}
  {
    var xs := cs + [c];
    assert forall j :: 0 <= j < |cs| ==> xs[j] == cs[j];
    assert xs[|cs|] == c;
  }

  /** The resolved links of all input articles. */
  function ResolvedLinks(site: String, articles: seq<Scraped>): (links: set<String>)
    ensures forall k :: 0 <= k < |articles| ==> Resolved(site, articles[k]) in links
    ensures forall l :: l in links ==> exists k :: 0 <= k < |articles| && Resolved(site, articles[k]) == l
  {
    set k | 0 <= k < |articles| :: Resolved(site, articles[k])
  }

  /** What the loop keeps of `articles`: processed in order, each article is
      appended unless its resolved link is already among the kept links. */
  function Deduped(site: String, articles: seq<Scraped>): seq<Candidate> {
    if articles == [] then
      []
    else
      var kept := Deduped(site, articles[..|articles| - 1]);
      var a := articles[|articles| - 1];
      if Resolved(site, a) in LinksOf(kept) then kept else kept + [ToCandidate(site, a)]
  }

  /** The dedup loop: `seen` is the set the source keeps beside the list. */
  method Dedupe(articles: seq<Scraped>, site: String) returns (filtered: seq<Candidate>, seen: set<String>)
    ensures filtered == Deduped(site, articles)
    ensures seen == LinksOf(filtered)
  {
    filtered := [];
    seen := {};
    for i := 0 to |articles|
      invariant filtered == Deduped(site, articles[..i])
      invariant seen == LinksOf(filtered)
    {
      assert articles[..i + 1][..i] == articles[..i];
      assert articles[..i + 1][i] == articles[i];
      var a := articles[i];
      var cleanedHeadline := CleanText(a.headline);
      var cleanedLink := if site == GuardianSite then FixGuardianLink(a.link) else a.link;
      if cleanedLink in seen {
        continue;
      }
      LinksOfAppend(filtered, Candidate(cleanedHeadline, cleanedLink));
      seen := seen + {cleanedLink};
      filtered := filtered + [Candidate(cleanedHeadline, cleanedLink)];
    }
    assert articles[..|articles|] == articles;
  }

  /** No two kept articles share a link. */
  predicate DistinctLinks(cs: seq<Candidate>) {
    forall i, j :: 0 <= i < j < |cs| ==> cs[i].link != cs[j].link
  }

  lemma {:induction false} ResolvedLinksSnoc(site: String, articles: seq<Scraped>)
    requires articles != []
    ensures var n := |articles| - 1;
            ResolvedLinks(site, articles) == ResolvedLinks(site, articles[..n]) + {Resolved(site, articles[n])}
  {
    var n := |articles| - 1;
    var init := articles[..n];
    assert forall k :: 0 <= k < n ==> init[k] == articles[k];
  }

  /** The kept links are exactly the resolved links of the input: every
      resolved link is kept once it appears. */
  lemma {:induction false} DedupedLinkSet(site: String, articles: seq<Scraped>)
    ensures LinksOf(Deduped(site, articles)) == ResolvedLinks(site, articles)
  {
    if articles != [] {
      var n := |articles| - 1;
      var init := articles[..n];
      DedupedLinkSet(site, init);
      ResolvedLinksSnoc(site, articles);
      var kept := Deduped(site, init);
      var r := Resolved(site, articles[n]);
      if r !in LinksOf(kept) {
        LinksOfAppend(kept, ToCandidate(site, articles[n]));
        assert ToCandidate(site, articles[n]).link == r;
      } else {
        assert LinksOf(kept) + {r} == LinksOf(kept);
      }
    }
  }

  /** No two kept articles share a link. */
  lemma {:induction false} DedupedDistinct(site: String, articles: seq<Scraped>)
    ensures DistinctLinks(Deduped(site, articles))
  {
    if articles != [] {
      DedupedDistinct(site, articles[..|articles| - 1]);
    }
  }

  /** The article at `k` is the first one with its resolved link. */
  predicate FirstOccurrence(site: String, articles: seq<Scraped>, k: nat)
    requires k < |articles|
  {
    forall i :: 0 <= i < k ==> Resolved(site, articles[i]) != Resolved(site, articles[k])
  }

  /** An independent reading of the loop: keep, in input order, each article
      that is the first with its resolved link. */
  function FirstOccurrences(site: String, articles: seq<Scraped>): seq<Candidate> {
    if articles == [] then
      []
    else
      var n := |articles| - 1;
      FirstOccurrences(site, articles[..n]) +
        (if FirstOccurrence(site, articles, n) then [ToCandidate(site, articles[n])] else [])
  }

  /** The loop keeps exactly the first occurrence of every resolved link, in
      input order. */
  lemma {:induction false} DedupedIsFirstOccurrences(site: String, articles: seq<Scraped>)
    ensures Deduped(site, articles) == FirstOccurrences(site, articles)
  {
    if articles != [] {
      var n := |articles| - 1;
      var init := articles[..n];
      DedupedIsFirstOccurrences(site, init);
      DedupedLinkSet(site, init);
      var r := Resolved(site, articles[n]);
      assert FirstOccurrence(site, articles, n) <==> r !in ResolvedLinks(site, init) by {
        assert forall k :: 0 <= k < n ==> init[k] == articles[k];
      }
    }
  }

  /** Off the Guardian, links are kept exactly as scraped. */
  lemma {:induction false} DedupedKeepsRawLinks(site: String, articles: seq<Scraped>, j: nat)
    requires site != GuardianSite && j < |Deduped(site, articles)|
    ensures exists k :: 0 <= k < |articles| && Deduped(site, articles)[j] == Candidate(CleanText(articles[k].headline), articles[k].link)
  {
    var n := |articles| - 1;
    var init := articles[..n];
    if j < |Deduped(site, init)| {
      DedupedKeepsRawLinks(site, init, j);
      var k :| 0 <= k < |init| && Deduped(site, init)[j] == Candidate(CleanText(init[k].headline), init[k].link);
      assert init[k] == articles[k];
    } else {
      assert Deduped(site, articles)[j] == ToCandidate(site, articles[n]);
    }
  }
}
