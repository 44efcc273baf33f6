/**
 * The routing part of `process_news`: each deduplicated article is fetched,
 * skipped when its content is the "Content not available" sentinel, classified
 * (defaulting to "neutral"), summarised, and appended to the bucket of its
 * sentiment. An unknown sentiment raises `KeyError`, which ends the run.
 *
 * Fetching, the sentiment classifier and the summariser are parameters: each is
 * a function of its input.
 */
module Pipeline {
  import opened Optional
  import opened Text
  import opened Normalizer
  import opened Summary
  import opened Dedup

  /** One routed record; the run's timestamp is not modelled. */
  datatype Article = Article(headline: String, url: String, sentiment: String, summary: String, image: Option<String>)

  /** One configured site and what its scraper returned. */
  datatype Site = Site(name: String, scraped: seq<Scraped>)

  const Sentinel: String := "Content not available"
  const Positive: String := "positive"
  const Neutral: String := "neutral"
  const Negative: String := "negative"
  const Labels: set<String> := {Positive, Neutral, Negative}

  /** `fetch_full_article`: the content and image found at a URL. */
  type Fetcher = String -> (String, Option<String>)

  /** `analyze_keywords(headline).get("final_sentiment")`. */
  type Classifier = String -> Option<String>

  /** The record the loop body builds for one article, or `None` when its
      content is the sentinel. */
  function MakeArticle(c: Candidate, fetch: Fetcher, classify: Classifier, summarise: Summariser): (r: Option<Article>)
    ensures r.None? <==> fetch(c.link).0 == Sentinel
    ensures r.Some? ==> r.value.url == c.link && r.value.headline == CleanText(c.headline)
    ensures r.Some? ==> r.value.sentiment == classify(CleanText(c.headline)).GetOr(Neutral)
    ensures r.Some? ==> r.value.summary == GenerateSummary(fetch(c.link).0, summarise)
    ensures r.Some? ==> r.value.image == fetch(c.link).1
  {
    var headline := CleanText(c.headline);
    var (content, image) := fetch(c.link);
    if content == Sentinel then
      None
    else
      var sentiment := classify(headline).GetOr(Neutral);
      Some(Article(headline, c.link, sentiment, GenerateSummary(content, summarise), image))
  }

  /** A missing sentiment becomes "neutral"; a present one is kept as given. */
  lemma SentimentDefault(c: Candidate, fetch: Fetcher, classify: Classifier, summarise: Summariser)
    requires MakeArticle(c, fetch, classify, summarise).Some?
    ensures var a := MakeArticle(c, fetch, classify, summarise).value;
            (classify(CleanText(c.headline)).None? ==> a.sentiment == Neutral) &&
            (classify(CleanText(c.headline)).Some? ==> a.sentiment == classify(CleanText(c.headline)).value)
  {
  }

  /** The headline of a record is `clean_text` applied twice to the scraped one:
      once in the dedup loop and once in the routing loop. The second pass
      changes it exactly when the first result still holds an apostrophe site. */
  lemma HeadlineCleanedTwice(site: String, s: Scraped, fetch: Fetcher, classify: Classifier, summarise: Summariser)
    requires MakeArticle(ToCandidate(site, s), fetch, classify, summarise).Some?
    ensures var a := MakeArticle(ToCandidate(site, s), fetch, classify, summarise).value;
            a.headline == CleanText(CleanText(s.headline)) &&
            (a.headline == CleanText(s.headline) <==> NoContraction(CleanText(s.headline)))
  {
    CleanTextTwice(s.headline);
  }

  /** The loop body as a function of the candidate alone. */
  function Builder(fetch: Fetcher, classify: Classifier, summarise: Summariser): Candidate -> Option<Article> {
    c => MakeArticle(c, fetch, classify, summarise)
  }

  /** The records built for a list of candidates, in order, sentinels skipped. */
  function Records(cs: seq<Candidate>, build: Candidate -> Option<Article>): (recs: seq<Article>)
    ensures |recs| <= |cs|
  {
    if cs == [] then
      []
    else
      var n := |cs| - 1;
      var prefix := Records(cs[..n], build);
      match build(cs[n])
      case None => prefix
      case Some(a) => prefix + [a]
  }

  /** A record is built exactly for each candidate whose content is not the
      sentinel. */
  lemma {:induction false} RecordsMembers(cs: seq<Candidate>, build: Candidate -> Option<Article>, a: Article)
    ensures a in Records(cs, build) <==> exists k :: 0 <= k < |cs| && build(cs[k]) == Some(a)
  {
    if cs != [] {
      var n := |cs| - 1;
      RecordsMembers(cs[..n], build, a);
      assert forall k :: 0 <= k < n ==> cs[..n][k] == cs[k];
    }
  }

  /** The records built for a prefix of the candidates are a prefix of all records. */
  lemma {:induction false} RecordsPrefix(cs: seq<Candidate>, i: nat, build: Candidate -> Option<Article>)
    requires i <= |cs|
    ensures Records(cs[..i], build) <= Records(cs, build)
  {
    if i < |cs| {
      var n := |cs| - 1;
      RecordsPrefix(cs[..n], i, build);
      assert cs[..n][..i] == cs[..i];
    } else {
      assert cs[..i] == cs;
    }
  }

  /** One more candidate adds its record, if any, at the end. */
  lemma {:induction false} RecordsSnoc(cs: seq<Candidate>, i: nat, build: Candidate -> Option<Article>)
    requires i < |cs|
    ensures build(cs[i]).None? ==> Records(cs[..i + 1], build) == Records(cs[..i], build)
    ensures build(cs[i]).Some? ==> Records(cs[..i + 1], build) == Records(cs[..i], build) + [build(cs[i]).value]
  {
    assert cs[..i + 1][..i] == cs[..i];
  }

  lemma {:induction false} PrefixOfAppend(xs: seq<Article>, ys: seq<Article>, zs: seq<Article>)
    requires xs <= ys
    ensures xs <= ys + zs
  {
    assert (ys + zs)[..|xs|] == ys[..|xs|];
  }

  /** Every record carries one of the three labels. */
  predicate AllKnown(recs: seq<Article>) {
    forall k :: 0 <= k < |recs| ==> recs[k].sentiment in Labels
  }

  /** The records with a given sentiment, in order. */
  function Bucket(recs: seq<Article>, sentiment: String): (b: seq<Article>)
    ensures |b| <= |recs|
  {
    if recs == [] then
      []
    else
      var n := |recs| - 1;
      Bucket(recs[..n], sentiment) + (if recs[n].sentiment == sentiment then [recs[n]] else [])
  }

  lemma {:induction false} BucketAppend(xs: seq<Article>, ys: seq<Article>, sentiment: String)
    ensures Bucket(xs + ys, sentiment) == Bucket(xs, sentiment) + Bucket(ys, sentiment)
    decreases |ys|
  {
    if ys != [] {
      var n := |ys| - 1;
      BucketAppend(xs, ys[..n], sentiment);
      assert (xs + ys)[..|xs| + n] == xs + ys[..n];
    } else {
      assert xs + ys == xs;
    }
  }

  /** A record is in a bucket exactly when it is a record with that bucket's sentiment. */
  lemma {:induction false} BucketMembers(recs: seq<Article>, sentiment: String, a: Article)
    ensures a in Bucket(recs, sentiment) <==> a in recs && a.sentiment == sentiment
  {
    if recs != [] {
      var n := |recs| - 1;
      BucketMembers(recs[..n], sentiment, a);
      assert recs == recs[..n] + [recs[n]];
    }
  }

  /** With known labels the three buckets split the records: together they hold
      every record exactly as often as `recs` does. */
  lemma {:induction false} BucketsHoldEveryRecord(recs: seq<Article>)
    requires AllKnown(recs)
    ensures multiset(Bucket(recs, Positive)) + multiset(Bucket(recs, Neutral)) + multiset(Bucket(recs, Negative))
            == multiset(recs)
  {
    if recs != [] {
      var n := |recs| - 1;
      assert AllKnown(recs[..n]) by {
        forall k | 0 <= k < n ensures recs[..n][k].sentiment in Labels {
          assert recs[..n][k] == recs[k];
        }
      }
      var xs, a := recs[..n], recs[n];
      assert xs + [a] == recs;
      BucketsHoldEveryRecord(xs);
      BucketSnoc(xs, a, Positive);
      BucketSnoc(xs, a, Neutral);
      BucketSnoc(xs, a, Negative);
      JoinsOneBucket(multiset(Bucket(xs, Positive)), multiset(Bucket(xs, Neutral)), multiset(Bucket(xs, Negative)),
                     multiset(Bucket(recs, Positive)), multiset(Bucket(recs, Neutral)), multiset(Bucket(recs, Negative)), a);
      assert multiset(recs) == multiset(xs) + multiset{a};
    }
  }

  /** Hence the sizes of the three buckets add up to the number of records. */
  lemma {:induction false} BucketsPartition(recs: seq<Article>)
    requires AllKnown(recs)
    ensures |Bucket(recs, Positive)| + |Bucket(recs, Neutral)| + |Bucket(recs, Negative)| == |recs|
  {
    BucketsHoldEveryRecord(recs);
    assert |multiset(recs)| == |recs|;
  }

  /** A record with a known label that joins the bucket of its own sentiment
      joins exactly one of the three buckets. */
  lemma JoinsOneBucket(p: multiset<Article>, u: multiset<Article>, g: multiset<Article>,
                       p': multiset<Article>, u': multiset<Article>, g': multiset<Article>, a: Article)
    requires a.sentiment in Labels
    requires p' == p + (if a.sentiment == Positive then multiset{a} else multiset{})
    requires u' == u + (if a.sentiment == Neutral then multiset{a} else multiset{})
    requires g' == g + (if a.sentiment == Negative then multiset{a} else multiset{})
    ensures p' + u' + g' == p + u + g + multiset{a}
  {
    assert Positive[0] != Neutral[0] && Positive[0] != Negative[0] && Neutral[2] != Negative[2];
  }

  /** One appended record joins the bucket of its own sentiment and no other. */
  lemma BucketSnoc(recs: seq<Article>, a: Article, sentiment: String)
    ensures multiset(Bucket(recs + [a], sentiment))
            == multiset(Bucket(recs, sentiment)) + (if a.sentiment == sentiment then multiset{a} else multiset{})
  {
    var xs := recs + [a];
    assert xs[..|recs|] == recs;
    assert Bucket(xs, sentiment) == Bucket(recs, sentiment) + (if a.sentiment == sentiment then [a] else []);
  }

  /** `results`: one list of records per sentiment. */
  class ResultSet {
    var buckets: map<String, seq<Article>>

    /** The dictionary holds exactly the three sentiment keys. */
    ghost predicate Valid()
      reads this
    {
      buckets.Keys == Labels
    }

    /** `{"positive": [], "neutral": [], "negative": []}`. */
    constructor ()
      ensures Valid()
      ensures forall l :: l in Labels ==> buckets[l] == []
    {
      buckets := map[Positive := [], Neutral := [], Negative := []];
    }

    /** `results[sentiment].append(article)`: fails, changing nothing, when the
        sentiment is not a key (the source raises `KeyError`). */
    method Append(a: Article) returns (ok: bool)
      requires Valid()
      modifies this
      ensures Valid()
      ensures ok <==> a.sentiment in Labels
      ensures ok ==> buckets == old(buckets)[a.sentiment := old(buckets)[a.sentiment] + [a]]
      ensures !ok ==> buckets == old(buckets)
    {
      if a.sentiment in buckets {
        buckets := buckets[a.sentiment := buckets[a.sentiment] + [a]];
        ok := true;
      } else {
        ok := false;
      }
    }
  }

  /** Each bucket of `after` is the same bucket of `before` followed by the
      records with its sentiment, in order. */
  ghost predicate Routed(before: map<String, seq<Article>>, after: map<String, seq<Article>>, recs: seq<Article>) {
    forall l :: l in Labels ==> l in before && l in after && after[l] == before[l] + Bucket(recs, l)
  }

  /** Appending a record with a known sentiment to its bucket routes it. */
  lemma {:induction false} BucketsGrow(start: map<String, seq<Article>>, before: map<String, seq<Article>>,
                    after: map<String, seq<Article>>, done: seq<Article>, a: Article)
    requires Routed(start, before, done) && a.sentiment in Labels
    requires after == before[a.sentiment := before[a.sentiment] + [a]]
    ensures Routed(start, after, done + [a])
  {
    forall l | l in Labels
      ensures after[l] == start[l] + Bucket(done + [a], l)
    {
      BucketAppend(done, [a], l);
      assert Bucket([a], l) == if a.sentiment == l then [a] else [] by {
        assert [a][..0] == [];
      }
      if l == a.sentiment {
        assert after[l] == start[l] + Bucket(done, l) + [a];
      } else {
        assert Bucket(done, l) + [] == Bucket(done, l);
      }
    }
  }

  /** One step of the routing loop: the candidate's record, if any, has a known
      sentiment and is appended to the bucket of that sentiment. */
  lemma {:induction false} RouteStep(start: map<String, seq<Article>>, before: map<String, seq<Article>>,
                  after: map<String, seq<Article>>, cs: seq<Candidate>, i: nat, build: Candidate -> Option<Article>)
    requires i < |cs| && AllKnown(Records(cs[..i], build)) && Routed(start, before, Records(cs[..i], build))
    requires build(cs[i]).None? ==> after == before
    requires build(cs[i]).Some? ==>
               var a := build(cs[i]).value;
               a.sentiment in Labels && after == before[a.sentiment := before[a.sentiment] + [a]]
    ensures AllKnown(Records(cs[..i + 1], build)) && Routed(start, after, Records(cs[..i + 1], build))
  {
    RecordsSnoc(cs, i, build);
    if build(cs[i]).Some? {
      BucketsGrow(start, before, after, Records(cs[..i], build), build(cs[i]).value);
    }
  }

  /** A record with an unknown sentiment means that not all records are known. */
  lemma {:induction false} UnknownStops(cs: seq<Candidate>, i: nat, build: Candidate -> Option<Article>)
    requires i < |cs| && build(cs[i]).Some? && build(cs[i]).value.sentiment !in Labels
    ensures !AllKnown(Records(cs, build))
  {
    RecordsSnoc(cs, i, build);
    RecordsPrefix(cs, i + 1, build);
    assert Records(cs, build)[|Records(cs[..i], build)|] == build(cs[i]).value;
  }

  /** The routing loop over one site's deduplicated articles. It succeeds
      exactly when every record has a known sentiment, and then each bucket has
      gained the records with its sentiment, in order. */
  method RouteArticles(results: ResultSet, cs: seq<Candidate>, fetch: Fetcher, classify: Classifier, summarise: Summariser)
    returns (ok: bool)
    requires results.Valid()
    modifies results
    ensures results.Valid()
    ensures ok <==> AllKnown(Records(cs, Builder(fetch, classify, summarise)))
    ensures ok ==> Routed(old(results.buckets), results.buckets, Records(cs, Builder(fetch, classify, summarise)))
  {
    ghost var build := Builder(fetch, classify, summarise);
    ghost var start := results.buckets;
    for i := 0 to |cs|
      invariant results.Valid()
      invariant AllKnown(Records(cs[..i], build))
      invariant Routed(start, results.buckets, Records(cs[..i], build))
    {
      ghost var before := results.buckets;
      var record := MakeArticle(cs[i], fetch, classify, summarise);
      assert record == build(cs[i]);
      if record.Some? {
        var appended := results.Append(record.value);
        if !appended {
          UnknownStops(cs, i, build);
          return false;
        }
      }
      RouteStep(start, before, results.buckets, cs, i, build);
    }
    assert cs[..|cs|] == cs;
    return true;
  }

  /** What the dedup loop keeps for each site, in the order of the sites. */
  function SiteBatches(sites: seq<Site>): (batches: seq<seq<Candidate>>)
    ensures |batches| == |sites|
    ensures forall k :: 0 <= k < |sites| ==> batches[k] == Deduped(sites[k].name, sites[k].scraped)
  {
    seq(|sites|, k requires 0 <= k < |sites| => Deduped(sites[k].name, sites[k].scraped))
  }

  /** The records of the whole run: each batch's records, in order. */
  function AllRecords(batches: seq<seq<Candidate>>, build: Candidate -> Option<Article>): seq<Article> {
    if batches == [] then
      []
    else
      var n := |batches| - 1;
      AllRecords(batches[..n], build) + Records(batches[n], build)
  }

  /** One more batch adds its records at the end. */
  lemma {:induction false} AllRecordsSnoc(batches: seq<seq<Candidate>>, i: nat, build: Candidate -> Option<Article>)
    requires i < |batches|
    ensures AllRecords(batches[..i + 1], build) == AllRecords(batches[..i], build) + Records(batches[i], build)
  {
    assert batches[..i + 1][..i] == batches[..i];
  }

  lemma {:induction false} AllRecordsPrefix(batches: seq<seq<Candidate>>, i: nat, build: Candidate -> Option<Article>)
    requires i <= |batches|
    ensures AllRecords(batches[..i], build) <= AllRecords(batches, build)
  {
    if i < |batches| {
      var n := |batches| - 1;
      AllRecordsPrefix(batches[..n], i, build);
      assert batches[..n][..i] == batches[..i];
      PrefixOfAppend(AllRecords(batches[..i], build), AllRecords(batches[..n], build), Records(batches[n], build));
    } else {
      assert batches[..i] == batches;
    }
  }

  /** Routing `xs` and then `ys` routes `xs + ys`. */
  lemma {:induction false} RoutedTwice(start: map<String, seq<Article>>, mid: map<String, seq<Article>>,
                    after: map<String, seq<Article>>, xs: seq<Article>, ys: seq<Article>)
    requires Routed(start, mid, xs) && Routed(mid, after, ys)
    ensures Routed(start, after, xs + ys)
  {
    forall l | l in Labels
      ensures after[l] == start[l] + Bucket(xs + ys, l)
    {
      BucketAppend(xs, ys, l);
    }
  }

  /** One step of the site loop: a site whose records are all known and routed
      extends the records of the run. */
  lemma {:induction false} SiteStep(start: map<String, seq<Article>>, before: map<String, seq<Article>>,
                 after: map<String, seq<Article>>, batches: seq<seq<Candidate>>, i: nat,
                 build: Candidate -> Option<Article>)
    requires i < |batches|
    requires AllKnown(AllRecords(batches[..i], build)) && Routed(start, before, AllRecords(batches[..i], build))
    requires AllKnown(Records(batches[i], build)) && Routed(before, after, Records(batches[i], build))
    ensures AllKnown(AllRecords(batches[..i + 1], build)) && Routed(start, after, AllRecords(batches[..i + 1], build))
  {
    AllRecordsSnoc(batches, i, build);
    RoutedTwice(start, before, after, AllRecords(batches[..i], build), Records(batches[i], build));
  }

  /** When all records of a whole are known, so are those of each part. */
  lemma {:induction false} KnownPart(xs: seq<Article>, ys: seq<Article>, zs: seq<Article>)
    requires xs + ys <= zs && AllKnown(zs)
    ensures AllKnown(ys)
  {
    forall k | 0 <= k < |ys|
      ensures ys[k].sentiment in Labels
    {
      assert (xs + ys)[|xs| + k] == ys[k];
    }
  }

  /** When all records of the run are known, so are those of each site. */
  lemma {:induction false} SiteKnown(batches: seq<seq<Candidate>>, i: nat, build: Candidate -> Option<Article>)
    requires i < |batches| && AllKnown(AllRecords(batches, build))
    ensures AllKnown(Records(batches[i], build))
  {
    AllRecordsSnoc(batches, i, build);
    AllRecordsPrefix(batches, i + 1, build);
    KnownPart(AllRecords(batches[..i], build), Records(batches[i], build), AllRecords(batches, build));
  }

  /** Routing from empty buckets leaves each bucket holding exactly its records. */
  lemma {:induction false} RoutedFromEmpty(start: map<String, seq<Article>>, after: map<String, seq<Article>>, recs: seq<Article>)
    requires forall l :: l in Labels ==> l in start && start[l] == []
    requires Routed(start, after, recs)
    ensures forall l :: l in Labels ==> after[l] == Bucket(recs, l)
  {
    forall l | l in Labels
      ensures after[l] == Bucket(recs, l)
    {
      assert [] + Bucket(recs, l) == Bucket(recs, l);
    }
  }

  /** `process_news` without its I/O: for every site, dedup the scraped articles
      and route them. It completes exactly when every record has a known
      sentiment, and then each bucket holds the records with its sentiment, in
      order. */
  method ProcessNews(sites: seq<Site>, fetch: Fetcher, classify: Classifier, summarise: Summariser)
    returns (results: ResultSet, ok: bool)
    ensures fresh(results) && results.Valid()
    ensures ok <==> AllKnown(AllRecords(SiteBatches(sites), Builder(fetch, classify, summarise)))
    ensures ok ==> forall l :: l in Labels ==>
              results.buckets[l] == Bucket(AllRecords(SiteBatches(sites), Builder(fetch, classify, summarise)), l)
  {
    ghost var batches := SiteBatches(sites);
    ghost var build := Builder(fetch, classify, summarise);
    results := new ResultSet();
    ghost var start := results.buckets;
    for i := 0 to |sites|
      invariant fresh(results) && results.Valid()
      invariant AllKnown(AllRecords(batches[..i], build))
      invariant Routed(start, results.buckets, AllRecords(batches[..i], build))
    {
      var filtered, seen := Dedupe(sites[i].scraped, sites[i].name);
      assert filtered == batches[i];
      ghost var before := results.buckets;
      var routed := RouteArticles(results, filtered, fetch, classify, summarise);
      if !routed {
        if AllKnown(AllRecords(batches, build)) {
          SiteKnown(batches, i, build);
        }
        return results, false;
      }
      SiteStep(start, before, results.buckets, batches, i, build);
    }
    assert batches[..|sites|] == batches;
    RoutedFromEmpty(start, results.buckets, AllRecords(batches, build));
    ok := true;
  }
}
