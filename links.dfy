/**
 * `fix_guardian_link`: the Guardian's scraped links may be relative; they are
 * resolved against the site's domain and stripped of any `#fragment`. Links
 * that already start with "http" are kept as they are.
 */
module Links {
  import opened Text

  const GuardianDomain: String := "https://www.theguardian.com"
  const GuardianSite: String := "guardian"

  /** Index of the first `#` at or after `i`, or `|s|` when there is none. */
  function FragmentStart(s: String, i: nat): (j: nat)
    requires i <= |s|
    ensures i <= j <= |s|
    ensures forall k :: i <= k < j ==> s[k] != '#'
    ensures j < |s| ==> s[j] == '#'
    decreases |s| - i
  {
    if i < |s| && s[i] != '#' then FragmentStart(s, i + 1) else i
  }

  /** `link.split("#")[0]`: the part of the link before its first `#`. */
  function BeforeFragment(link: String): (r: String)
    ensures r <= link
    ensures '#' !in r
    ensures |r| < |link| ==> link[|r|] == '#'
  {
    var j := FragmentStart(link, 0);
    assert forall k :: 0 <= k < j ==> link[..j][k] == link[k];
    link[..j]
  }

  /** `fix_guardian_link`: an absolute link is kept; any other link becomes the
      Guardian domain followed by the part of the link before its first `#`. */
  function FixGuardianLink(link: String): (r: String)
    ensures StartsWith(link, "http") ==> r == link
    ensures !StartsWith(link, "http") ==> r == GuardianDomain + BeforeFragment(link)
    ensures !StartsWith(link, "http") ==>
              StartsWith(r, GuardianDomain) && r[|GuardianDomain|..] <= link && '#' !in r[|GuardianDomain|..]
    ensures StartsWith(r, "http")
  {
    if StartsWith(link, "http") then
      link
    else
      var r := GuardianDomain + BeforeFragment(link);
      assert r[..|GuardianDomain|] == GuardianDomain;
      assert r[|GuardianDomain|..] == BeforeFragment(link);
      assert r[..4] == GuardianDomain[..4];
      r
  }

  /** Resolving a link twice gives the same as resolving it once. */
  lemma FixGuardianLinkIdempotent(link: String)
    ensures FixGuardianLink(FixGuardianLink(link)) == FixGuardianLink(link)
  {
  }

  /** The link kept by the dedup loop: only the Guardian's links are resolved. */
  function ResolveLink(site: String, link: String): (r: String)
    ensures site != GuardianSite ==> r == link
    ensures site == GuardianSite ==> r == FixGuardianLink(link) && StartsWith(r, "http")
  {
    if site == GuardianSite then FixGuardianLink(link) else link
  }

  /** Two relative links that agree up to their first `#` resolve to the same link. */
  lemma FragmentsIgnored(a: String, b: String)
    requires !StartsWith(a, "http") && !StartsWith(b, "http")
    requires BeforeFragment(a) == BeforeFragment(b)
    ensures FixGuardianLink(a) == FixGuardianLink(b)
  {
  }
}
