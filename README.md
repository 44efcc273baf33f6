# Sentiment analysis pipeline: headline, link and summary logic

This project models the deterministic core of `sentiment_analysis_pipeline.py`,
the part that turns scraped headline/link pairs into routed article records,
and proves properties of it in Dafny:

- `clean_text`: three rewrites. The apostrophe rejoin `\b([A-Za-z]+)\s([smtdl])\b` → `\1'\2` is modelled as Python's `re.sub` scan, left to right and non-overlapping. Non-ASCII runs become a single space. Whitespace is collapsed and the result stripped.
- `fix_guardian_link`: a relative link is resolved against the Guardian's domain and its `#fragment` is dropped.
- `filter_headlines`: a loop that keeps headlines with more than two tokens that mention neither "video" nor "advertisement".
- The per-site dedup loop of `process_news`: a seen-set plus an output list.
- `clean_summary`: the whitespace, punctuation, capitalisation, apostrophe and terminal-period steps.
- `generate_summary`: the branching policy around an abstract summariser that may fail.
- The per-article routing loop of `process_news`, which appends records into a dictionary of three lists.

One whitespace predicate, `Text.IsSpace`, is used throughout. It holds of exactly
the characters Python's `str.isspace` accepts, which are also the characters
matched by `\s` in `re` and split on by `str.split()` and `str.strip()`.

Modules, each in its own file:

- `Optional`: the `Option` type.
- `Text`: character classes, `strip`, `split`, prefixes and substrings.
- `Normalizer`: `clean_text`.
- `Links`: `fix_guardian_link`.
- `Headlines`: `filter_headlines`.
- `Summary`: `clean_summary` and `generate_summary`.
- `Dedup`: the dedup loop.
- `Pipeline`: the routing loop and `process_news` over all sites.

Loops in the source are methods with loop invariants, proved against recursive
specification functions (`Kept`, `Deduped`, `Records`, `Bucket`). The `results`
dictionary is the class `ResultSet`, whose `buckets` map is updated in place.

Places where the code does something other than what its comments or docstrings say:

- `clean_text` is not idempotent. The apostrophe step runs before whitespace is collapsed and needs exactly one whitespace character. So `"it  s"` cleans to `"it s"`, and cleaning that again gives `"it's"`.
- The comment on line 128 promises a curly apostrophe (`Trump’s`). Line 129 inserts the ASCII `'`.
- `clean_summary` appends `.` before it strips, so `"Hello. "` becomes `"Hello. ."`.
- A sentence start is upper-cased only at the very start of the text or after `[.!?]` and whitespace. Leading whitespace therefore keeps the first letter lower-case.
- `text.capitalize()` lower-cases everything after the first character, so acronyms are lost.
- `filter_headlines` is never called. The dedup loop applies no headline filter.
- A sentiment label other than the three keys makes `results[sentiment]` raise `KeyError`, which ends the run.

## Model

| member | source | states |
|---|---|---|
| Text.Strip | sentiment_analysis_pipeline.py:35 | `str.strip()`: the result is the slice of the input between a whitespace-only prefix and a whitespace-only suffix, with no whitespace at either end; it is empty exactly when the input is all whitespace; a non-whitespace first or last character survives |
| Text.SplitWords | sentiment_analysis_pipeline.py:57 | `str.split()`: every token is non-empty and free of whitespace |
| Text.SplitAppend | sentiment_analysis_pipeline.py:57 | `str.split()` of a concatenation whose seam touches whitespace is the concatenation of the two splits |
| Text.SplitOfSpaces | sentiment_analysis_pipeline.py:57 | whitespace alone splits into no tokens |
| Text.SplitOfWord | sentiment_analysis_pipeline.py:57 | a non-empty run without whitespace is exactly one token (with `SplitAppend` these three laws fix `split()` on every string) |
| Text.SpaceCharacters | sentiment_analysis_pipeline.py:35 | the whitespace class of `str.isspace`, `\s`, `split()` and `strip()` holds of exactly the 29 listed characters |
| Text.Lower | sentiment_analysis_pipeline.py:61 | `str.lower()`: same length; a character changes iff it is an ASCII capital, which becomes the small letter of the same name; no ASCII capital is left |
| Text.StartsWithConcat | sentiment_analysis_pipeline.py:44 | `s.startswith(p)` holds iff `s` is `p` followed by some string |
| Text.ContainsAt | sentiment_analysis_pipeline.py:61 | `sub in s` holds iff `sub` occurs in `s` at some position |
| Text.AsciiSpace | sentiment_analysis_pipeline.py:35 | among ASCII characters, `\s` matches exactly space, TAB, LF, VT, FF, CR and U+001C..U+001F |
| Text.AsciiWordChar | sentiment_analysis_pipeline.py:31 | among ASCII characters, `\w` (which decides `\b`) matches exactly letters, digits and `_` |
| Text.LatinLetter | sentiment_analysis_pipeline.py:31 | Latin-1 letters (U+00C0..U+00FF except × and ÷) are word characters and not whitespace |
| Text.Take | sentiment_analysis_pipeline.py:155 | `text[:n]`: the prefix of length `min(n, len(text))` |
| Normalizer.LetterRunEnd | sentiment_analysis_pipeline.py:31 | the greedy `[A-Za-z]+` stops at the first non-letter or the end |
| Normalizer.MatchesFrom | sentiment_analysis_pipeline.py:31 | every recorded match position lies in the scanned part of the text (what the positions are is stated by `MatchesFromSound` and `MatchesFromExact`) |
| Normalizer.MatchesFromSound | sentiment_analysis_pipeline.py:31 | every match the scan records is a word of letters at a word boundary, one whitespace, one of `s m t d l`, then a word boundary |
| Normalizer.MatchesFromExact | sentiment_analysis_pipeline.py:31 | a site of the pattern at `b` is taken by the scan iff it is where the scan starts or the character before it is not the whitespace of a match the scan took |
| Normalizer.MatchesDoNotOverlap | sentiment_analysis_pipeline.py:31 | the scan resumes after a match: two recorded positions are at least three characters apart |
| Normalizer.MatchesFromFindsOne | sentiment_analysis_pipeline.py:31 | if any site exists, the scan finds at least one match |
| Normalizer.RestoreApostrophes | sentiment_analysis_pipeline.py:31 | the rewrite keeps the length: each match turns one whitespace character into `'` |
| Normalizer.RestoreApostrophesOnlyJoins | sentiment_analysis_pipeline.py:31 | a character changes only if it is a matched whitespace character, and it becomes `'` |
| Normalizer.RestoreApostrophesJoins | sentiment_analysis_pipeline.py:31 | a site of the pattern gets its apostrophe iff it starts the text or its preceding character is not the whitespace of a taken match |
| Normalizer.RestoreApostrophesJoinsAfterWord | sentiment_analysis_pipeline.py:31 | a site that no other site ends just before (as in "Today I m here") gets its apostrophe |
| Normalizer.RestoreApostrophesWithoutMatch | sentiment_analysis_pipeline.py:31 | text with no site is left alone |
| Normalizer.ReplaceNonAscii | sentiment_analysis_pipeline.py:34 | `re.sub(r"[^\x00-\x7F]+", " ", …)`: the result is all ASCII |
| Normalizer.ReplaceNonAsciiOfAscii | sentiment_analysis_pipeline.py:34 | ASCII text is left unchanged |
| Normalizer.ReplaceNonAsciiAppend | sentiment_analysis_pipeline.py:34 | the rewrite of a concatenation whose seam touches an ASCII character is the concatenation of the rewrites |
| Normalizer.ReplaceNonAsciiOfRun | sentiment_analysis_pipeline.py:34 | a non-empty run of non-ASCII characters becomes exactly one space (with `ReplaceNonAsciiAppend` and `ReplaceNonAsciiOfAscii` these laws fix the rewrite on every string) |
| Normalizer.CollapseSpaces | sentiment_analysis_pipeline.py:35 | `re.sub(r"\s+", " ", …)`: no two adjacent whitespace characters, only plain spaces, empty iff the input is, ASCII kept ASCII |
| Normalizer.CollapseOfSingleSpaced | sentiment_analysis_pipeline.py:35 | text already single- and plain-spaced is unchanged |
| Normalizer.CollapseAppend | sentiment_analysis_pipeline.py:35 | `re.sub(r"\s+", " ", …)` of a concatenation whose seam touches a non-whitespace character is the concatenation of the rewrites |
| Normalizer.CollapseOfRun | sentiment_analysis_pipeline.py:35 | a non-empty run of whitespace becomes exactly one plain space (with `CollapseAppend` and `CollapseOfSingleSpaced` these laws fix the rewrite on every string) |
| Normalizer.StripKeepsShape | sentiment_analysis_pipeline.py:35 | stripping keeps text ASCII, single-spaced and plain-spaced |
| Normalizer.CleanText | sentiment_analysis_pipeline.py:24-39 | the result is ASCII, single plain spaces only, with no whitespace at either end |
| Normalizer.CleanTextFixpoint | sentiment_analysis_pipeline.py:24-39 | clean text with no apostrophe site is returned unchanged |
| Normalizer.RestoreApostrophesKeepsClean | sentiment_analysis_pipeline.py:31-35 | joining apostrophes in clean text leaves it clean |
| Normalizer.CleanTextOfCleanJoin | sentiment_analysis_pipeline.py:24-39 | when the apostrophe step alone already gives clean text, that text is the result |
| Normalizer.CleanTextTwice | sentiment_analysis_pipeline.py:24-39 | a second pass changes the result exactly when the first result still holds an apostrophe site |
| Normalizer.TrumpJoin | sentiment_analysis_pipeline.py:30-31 | the apostrophe step turns "Trump s speech" into "Trump's speech" |
| Normalizer.TrumpsSpeech | sentiment_analysis_pipeline.py:30-35 | `clean_text("Trump s speech") == "Trump's speech"` |
| Normalizer.SpacedContraction | sentiment_analysis_pipeline.py:31-35 | `clean_text("it  s") == "it s"`: with two spaces, no apostrophe is inserted |
| Normalizer.JoinedContraction | sentiment_analysis_pipeline.py:31-35 | `clean_text("it s") == "it's"` |
| Normalizer.CleanTextNotIdempotent | sentiment_analysis_pipeline.py:24-39 | cleaning "it  s" twice gives "it's", not the first result "it s" |
| Normalizer.NonAsciiRunBecomesSpace | sentiment_analysis_pipeline.py:34 | `clean_text("naïve") == "na ve"` |
| Links.BeforeFragment | sentiment_analysis_pipeline.py:45 | `link.split("#")[0]`: a prefix of the link without `#`, cut exactly at the first `#` |
| Links.FixGuardianLink | sentiment_analysis_pipeline.py:43-46 | a link starting with "http" is unchanged; any other becomes exactly the Guardian domain followed by `BeforeFragment` of the link; the result always starts with "http" |
| Links.FixGuardianLinkIdempotent | sentiment_analysis_pipeline.py:43-46 | fixing a link twice is the same as fixing it once |
| Links.FragmentsIgnored | sentiment_analysis_pipeline.py:45 | relative links that agree before their first `#` resolve to the same link |
| Links.ResolveLink | sentiment_analysis_pipeline.py:188 | for the site "guardian" the link is `fix_guardian_link` of the scraped link (so it starts with "http"); other sites keep it verbatim |
| Headlines.FilterHeadlines | sentiment_analysis_pipeline.py:50-65 | the loop returns exactly `Kept` of the cleaned headlines |
| Headlines.KeptMembers | sentiment_analysis_pipeline.py:56-64 | a headline is returned iff it is a cleaned input with more than two tokens whose lower-case form contains neither "video" nor "advertisement" |
| Headlines.KeptSubsequence | sentiment_analysis_pipeline.py:53-65 | the output is an order-preserving subsequence of the cleaned inputs (positions strictly increase), so it is no longer than the input |
| Summary.DropFrom | sentiment_analysis_pipeline.py:123 | the scan from `i` never lengthens the rest of the text, is empty iff the rest is, keeps its last character and a non-whitespace first character (what it deletes and keeps is fixed by `DropAppend`, `DropOfPair` and `DropFromWithoutMatch`) |
| Summary.DropSpaceBeforePunct | sentiment_analysis_pipeline.py:123 | the step never lengthens the text, keeps it empty iff it was, keeps the last character, and keeps a non-whitespace first character |
| Summary.DropAppend | sentiment_analysis_pipeline.py:123 | the step on a concatenation whose seam is not whitespace followed by `.,!?;:` is the concatenation of the steps |
| Summary.DropOfPair | sentiment_analysis_pipeline.py:123 | a whitespace character followed by `.,!?;:` becomes the mark alone |
| Summary.DropFromWithoutMatch | sentiment_analysis_pipeline.py:123 | text with no whitespace before `.,!?;:` is kept unchanged, including all its other whitespace (with `DropAppend` and `DropOfPair` these laws fix the step on every string) |
| Summary.DropSpaceBeforePunctSingleSpaced | sentiment_analysis_pipeline.py:122-123 | after the whitespace collapse, no whitespace is left before `.,!?;:` |
| Summary.DropFromKeepsNonSpaces | sentiment_analysis_pipeline.py:123 | the step deletes whitespace only: the other characters survive in order |
| Summary.CapitalsFromExact | sentiment_analysis_pipeline.py:126 | the scan upper-cases exactly the sentence starts from its position on |
| Summary.CapitalizeSentences | sentiment_analysis_pipeline.py:126 | same length; the character at `k` is upper-cased if it is a sentence start (a lower-case letter at the start of the text, or after `[.!?]` and whitespace) and kept otherwise |
| Summary.CapitalsExact | sentiment_analysis_pipeline.py:126 | the left-to-right `re.sub` scan upper-cases a position iff it is a sentence start |
| Summary.RestoreApostrophesKeepsEnds | sentiment_analysis_pipeline.py:129 | the apostrophe step never changes the first or last character |
| Summary.EnsureTerminal | sentiment_analysis_pipeline.py:132-133 | the text is returned unchanged iff it is empty or ends in `.`, `!` or `?`; otherwise it gains exactly one `.`; non-empty text ends in `.`, `!` or `?` afterwards |
| Summary.CleanSummary | sentiment_analysis_pipeline.py:112-139 | empty text gives ""; non-empty text gives a non-empty result ending in `.`, `!` or `?` with no whitespace at either end |
| Summary.CleanSummaryCapitalizesFirst | sentiment_analysis_pipeline.py:126 | a lower-case first letter is upper-cased |
| Summary.CleanSummaryKeepsFinalPeriod | sentiment_analysis_pipeline.py:132-135 | text ending in `.` still ends in `.` |
| Summary.SpaceBeforeAppendedPeriod | sentiment_analysis_pipeline.py:132-135 | `clean_summary("Hello. ") == "Hello. ."` |
| Summary.PyCapitalize | sentiment_analysis_pipeline.py:153 | `str.capitalize`: same length, first character not lower-case, no upper-case letter after it, equal to the input up to case |
| Summary.CapitalizeLowersRest | sentiment_analysis_pipeline.py:153 | "NASA news" becomes "Nasa news" |
| Summary.PyCapitalizeIdempotent | sentiment_analysis_pipeline.py:153 | capitalising twice is the same as once |
| Summary.ModelInput | sentiment_analysis_pipeline.py:155 | the model input is "summarize: " followed by the first `min(2048, len(text))` characters of the text |
| Summary.GenerateSummary | sentiment_analysis_pipeline.py:141-164 | text empty after stripping gives "No content available to summarize."; an empty result means the model answered "" |
| Summary.ShortTextSkipsModel | sentiment_analysis_pipeline.py:151-153 | under ten tokens the result is the capitalised stripped text, whatever the model does |
| Summary.SummaryDependsOnModelInput | sentiment_analysis_pipeline.py:155-158 | the model is consulted only on "summarize: " + the first 2048 characters of the stripped text |
| Summary.ModelSummary | sentiment_analysis_pipeline.py:155-159 | the model's answer is passed through `clean_summary`, so a non-empty answer comes back ending in `.`, `!` or `?` |
| Summary.FallbackSummary | sentiment_analysis_pipeline.py:161-164 | when the model raises, the result is `clean_summary(text[:300] + "...")`, which ends in `.` |
| Dedup.Dedupe | sentiment_analysis_pipeline.py:184-194 | the loop returns `Deduped` of the input, and `seen_articles` equals the set of output links |
| Dedup.DedupedLinkSet | sentiment_analysis_pipeline.py:186-194 | every resolved input link appears among the output links, and no other |
| Dedup.DedupedDistinct | sentiment_analysis_pipeline.py:190-194 | output links are pairwise distinct |
| Dedup.DedupedIsFirstOccurrences | sentiment_analysis_pipeline.py:184-194 | the output is exactly the first occurrence of each resolved link, in input order, with its headline cleaned |
| Dedup.DedupedKeepsRawLinks | sentiment_analysis_pipeline.py:188 | off the Guardian every output link is some input's link verbatim |
| Pipeline.MakeArticle | sentiment_analysis_pipeline.py:197-218 | no record iff the fetched content is "Content not available"; otherwise the record carries the article's link, its cleaned headline, the classifier's label or "neutral", `generate_summary` of the fetched content, and the fetched image |
| Pipeline.SentimentDefault | sentiment_analysis_pipeline.py:206-207 | a missing `final_sentiment` becomes "neutral"; a present one is used as given |
| Pipeline.HeadlineCleanedTwice | sentiment_analysis_pipeline.py:187-197 | the record's headline is `clean_text` applied twice, and it differs from one pass exactly when an apostrophe site remains |
| Pipeline.RecordsMembers | sentiment_analysis_pipeline.py:196-218 | a record is produced exactly for the candidates whose content is not the sentinel |
| Pipeline.BucketMembers | sentiment_analysis_pipeline.py:220 | a record is in a bucket iff it is a record with that bucket's sentiment |
| Pipeline.BucketsHoldEveryRecord | sentiment_analysis_pipeline.py:220 | with known labels the three buckets together hold every record exactly as often as the records do: the sum of their multisets is the multiset of the records |
| Pipeline.BucketsPartition | sentiment_analysis_pipeline.py:220 | with known labels the three bucket sizes add up to the number of records |
| Pipeline.ResultSet.constructor | sentiment_analysis_pipeline.py:170 | `results` starts with exactly the keys positive, neutral and negative, each empty |
| Pipeline.ResultSet.Append | sentiment_analysis_pipeline.py:220 | a known sentiment's list gains the record at its end and the other lists are unchanged; an unknown one fails (`KeyError`) and changes nothing |
| Pipeline.RouteArticles | sentiment_analysis_pipeline.py:196-220 | the loop succeeds iff every record has a known sentiment; each bucket then has gained exactly the site's records of its sentiment, in order, and the keys stay the three labels |
| Pipeline.ProcessNews | sentiment_analysis_pipeline.py:168-223 | the run completes iff every record of every site has a known sentiment; each bucket then holds exactly the records of its sentiment, in site and article order |
## Left out

- `unicodedata.normalize("NFKC", …)` and `ftfy.fix_text` (lines 27, 116, 119) are foreign normalisers. They are the identity in the model.
- The UTF-8 encode/decode round-trip with "ignore" (line 28) is the identity. Dafny strings hold only Unicode scalar values, so there is nothing for it to drop.
- `\w`, and so `\b`, is exact only below U+0100. Above it, every character except whitespace and the General Punctuation block U+2000..U+206F counts as a word character. Python's full alphanumeric tables are not modelled.
- `str.upper`, `str.lower` and `str.capitalize` are modelled on ASCII letters only. Other characters keep their case.
- `fetch_full_article` and `extract_image` (lines 69-110) are HTTP and HTML parsing. The fetcher is a function parameter returning `(content, image)`, so repeated fetches of one URL (a link scraped from two sites) are assumed to return the same content and image, while the real fetch may differ between calls.
- `analyze_keywords` (line 206) is a classifier parameter returning the optional `final_sentiment`.
- The T5 summariser (lines 20, 156) is a parameter that may fail. Its `max_length`/`min_length` settings are not modelled.
- The scrapers (lines 179-182) are left out. Each site's scraped pairs are an input of `ProcessNews`.
- The scraper's choice between static and dynamic scraping is left out.
- Loading `news_sites.json` and the model at import time (lines 16-20) is file and ML I/O, left out.
- The JSON dump (lines 225-226), the timestamps (line 217), `time.sleep` (line 223) and all `print` logging are I/O, clock and delay, all left out.
- `str(text)` (line 145) and the `try/except` fallbacks in `clean_text` and `clean_summary` (lines 37-39, 137-139) are left out. They cannot trigger on `str` input, which the model always passes.
- The `try/except` of `generate_summary` is modelled only for the summariser call. The summariser failing is the parameter returning `None`.
- Pipeline.RouteArticles: when `KeyError` is raised, the contract only says the run stops. The state of the partly filled buckets is not stated, because the source aborts `process_news` at that point.
- Pipeline.ProcessNews: when `KeyError` is raised, the contract likewise does not state the buckets' contents.
- The dedup loop's dictionaries (`{"headline": …, "link": …}`) are the datatype `Candidate`, and the routed dictionaries are the datatype `Article`, without the timestamp.
- Normalizer.MatchesFrom: its own contract only bounds the recorded positions. Which positions they are is stated by the lemmas `MatchesFromSound`, `MatchesFromExact` and `MatchesDoNotOverlap`, because a set-valued scan is easier to characterise by lemmas than in one postcondition.
- Summary.DropFrom: its own contract states length and end characters only. What it deletes and keeps is fixed by the laws `DropAppend`, `DropOfPair` and `DropFromWithoutMatch`, because every string splits into whitespace-before-mark pairs and pieces without such a pair.
- Summary.DropSpaceBeforePunct: its own contract states length and end characters only. The same three laws fix its result, since it is `DropFrom` from position 0.
