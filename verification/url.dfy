/** `extract_url_from_objective`: the first `https?://[^\s]+` match of the
    objective under case-insensitive matching, else the URL of the first
    well-known site named in it, else a fixed fallback. */
module UrlExtraction {
  import opened Wrappers
  import opened Text

  /** The keys of the site table, in the order it is searched. */
  const SiteKeys: seq<string> := [
    "amazon", "google", "facebook", "twitter", "linkedin",
    "github", "stackoverflow", "youtube", "netflix", "spotify"
  ]

  /** Every key of the table maps to the `.com` address of the same name. */
  function SiteUrl(key: string): string {
    "https://" + key + ".com"
  }

  const Fallback: string := "https://example.com"

  /** Character `c` matches the lower-case pattern letter `p` under Python's
      `re.IGNORECASE`, which also lets the long s (U+017F) match `s`. */
  predicate MatchesIgnoreCase(c: char, p: char) {
    LowerChar(c) == p || (p == 's' && c == '\U{017F}')
  }

  /** `s` spells the literal `lit`, ignoring case. */
  predicate SpellsIgnoreCase(s: string, lit: string) {
    |s| == |lit| && forall k :: 0 <= k < |s| ==> MatchesIgnoreCase(s[k], lit[k])
  }

  /** `s` begins with an http or https scheme. */
  predicate SchemePrefix(s: string, lit: string) {
    (lit == "https://" || lit == "http://") && |lit| < |s| && SpellsIgnoreCase(s[..|lit|], lit)
  }

  /** `https?://[^\s]+` matches at index `i`: a scheme, then at least one
      non-whitespace character. */
  predicate UrlAt(o: string, i: nat) {
    i <= |o| &&
    (|| (SchemePrefix(o[i..], "https://") && !IsSpace(o[i + 8]))
     || (SchemePrefix(o[i..], "http://") && !IsSpace(o[i + 7])))
  }

  /** End of the run of non-whitespace characters that starts at `i`. */
  function RunEnd(o: string, i: nat): (j: nat)
    requires i <= |o|
    ensures i <= j <= |o|
    ensures forall k :: i <= k < j ==> !IsSpace(o[k])
    ensures j == |o| || IsSpace(o[j])
    decreases |o| - i
  {
    if i < |o| && !IsSpace(o[i]) then RunEnd(o, i + 1) else i
  }

  /** The leftmost index at or after `from` where the pattern matches. */
  function FirstUrlFrom(o: string, from: nat): (r: Option<nat>)
    requires from <= |o|
    ensures r.Some? ==> from <= r.value < |o| && UrlAt(o, r.value)
    ensures r.Some? ==> forall k :: from <= k < r.value ==> !UrlAt(o, k)
    ensures r.None? ==> forall k :: from <= k ==> !UrlAt(o, k)
    decreases |o| - from
  {
    if from == |o| then None
    else if UrlAt(o, from) then Some(from)
    else FirstUrlFrom(o, from + 1)
  }

  /** The first site of the table, from index `from` on, whose key occurs
      in `lowered`. */
  function FirstSiteFrom(lowered: string, from: nat): (r: Option<nat>)
    requires from <= |SiteKeys|
    ensures r.Some? ==> from <= r.value < |SiteKeys| && Contains(lowered, SiteKeys[r.value])
    ensures r.Some? ==> forall k :: from <= k < r.value ==> !Contains(lowered, SiteKeys[k])
    ensures r.None? ==> forall k :: from <= k < |SiteKeys| ==> !Contains(lowered, SiteKeys[k])
    decreases |SiteKeys| - from
  {
    if from == |SiteKeys| then None
    else if Contains(lowered, SiteKeys[from]) then Some(from)
    else FirstSiteFrom(lowered, from + 1)
  }

  /** The objective names an address the pattern matches. */
  ghost predicate HasUrl(o: string) {
    exists i: nat :: UrlAt(o, i)
  }

  /** The objective names a site of the table. */
  ghost predicate NamesSite(o: string) {
    exists k :: 0 <= k < |SiteKeys| && Contains(Lower(o), SiteKeys[k])
  }

  function ExtractUrl(objective: string): (url: string)
    ensures HasUrl(objective) ==>
      exists i: nat :: && UrlAt(objective, i)
                       && (forall j: nat :: j < i ==> !UrlAt(objective, j))
                       && i <= |objective|
                       && url == objective[i..RunEnd(objective, i)]
    ensures !HasUrl(objective) && NamesSite(objective) ==>
      exists k :: && 0 <= k < |SiteKeys|
                  && Contains(Lower(objective), SiteKeys[k])
                  && (forall j :: 0 <= j < k ==> !Contains(Lower(objective), SiteKeys[j]))
                  && url == SiteUrl(SiteKeys[k])
    ensures !HasUrl(objective) && !NamesSite(objective) ==> url == Fallback
  {
    match FirstUrlFrom(objective, 0)
    case Some(i) => objective[i..RunEnd(objective, i)]
    case None =>
      match FirstSiteFrom(Lower(objective), 0)
      case Some(k) => SiteUrl(SiteKeys[k])
      case None => Fallback
  }

  /** `RunEnd` is the first whitespace at or after `i`. */
  lemma {:induction false} RunEndIs(o: string, i: nat, j: nat)
    requires i <= j <= |o|
    requires forall k :: i <= k < j ==> !IsSpace(o[k])
    requires j == |o| || IsSpace(o[j])
    ensures RunEnd(o, i) == j
    decreases j - i
  {
    if i < j {
      RunEndIs(o, i + 1, j);
    }
  }

  /** A scheme contains no whitespace, so neither does the text it
      matches. */
  lemma SchemeNotSpace(s: string, lit: string)
    requires SchemePrefix(s, lit)
    ensures forall k :: 0 <= k < |lit| ==> !IsSpace(s[k])
  {
    forall k | 0 <= k < |lit| ensures !IsSpace(s[k]) {
      assert s[..|lit|][k] == s[k];
      assert MatchesIgnoreCase(s[k], lit[k]);
    }
  }

  lemma KeysAreLetters()
    ensures forall k, m :: 0 <= k < |SiteKeys| && 0 <= m < |SiteKeys[k]| ==> 'a' <= SiteKeys[k][m] <= 'z'
  {
  }

  lemma SiteUrlIsAddress(key: string)
    requires forall m :: 0 <= m < |key| ==> 'a' <= key[m] <= 'z'
    ensures HttpAddress(SiteUrl(key))
  {
    var u := SiteUrl(key);
    assert u[..8] == "https://";
    forall k | 0 <= k < |u| ensures !IsSpace(u[k]) {
      if 8 <= k < 8 + |key| { assert u[k] == key[k - 8]; }
    }
  }

  /** An http or https address with no whitespace in it. */
  predicate HttpAddress(u: string) {
    && (SchemePrefix(u, "http://") || SchemePrefix(u, "https://"))
    && forall k :: 0 <= k < |u| ==> !IsSpace(u[k])
  }

  /** The text a match covers is an address. */
  lemma MatchIsAddress(o: string, i: nat)
    requires UrlAt(o, i)
    ensures HttpAddress(o[i..RunEnd(o, i)])
  {
    var j := RunEnd(o, i);
    var rest := o[i..];
    var lit := if SchemePrefix(rest, "https://") && !IsSpace(o[i + 8]) then "https://" else "http://";
    assert SchemePrefix(rest, lit) && !IsSpace(rest[|lit|]);
    SchemeNotSpace(rest, lit);
    assert j > i + |lit|;
    assert o[i..j][..|lit|] == rest[..|lit|];
  }

  /** Whatever the objective, the answer is an http or https address. */
  lemma ExtractedIsUrl(objective: string)
    ensures HttpAddress(ExtractUrl(objective))
  {
    match FirstUrlFrom(objective, 0)
    case Some(i) =>
      MatchIsAddress(objective, i);
    case None =>
      match FirstSiteFrom(Lower(objective), 0)
      case Some(k) => SiteIsAddress(k);
      case None => FallbackIsAddress();
  }

  /** Every address of the site table is an http or https address. */
  lemma SiteIsAddress(k: nat)
    requires k < |SiteKeys|
    ensures HttpAddress(SiteUrl(SiteKeys[k]))
  {
    KeysAreLetters();
    SiteUrlIsAddress(SiteKeys[k]);
  }

  /** So is the fallback. */
  lemma FallbackIsAddress()
    ensures HttpAddress(Fallback)
  {
    assert Fallback == SiteUrl("example");
    SiteUrlIsAddress("example");
  }

  /** The scan answers the leftmost match. */
  lemma FirstUrlIs(o: string, i: nat)
    requires UrlAt(o, i)
    requires forall j :: 0 <= j < i ==> !UrlAt(o, j)
    ensures ExtractUrl(o) == o[i..RunEnd(o, i)]
  {
    assert FirstUrlFrom(o, 0) == Some(i);
  }

  /** An address in the objective wins over a site name it also contains,
      and keeps its original capitalisation. */
  lemma UrlBeatsSiteName()
    ensures ExtractUrl("HTTP://Amazon") == "HTTP://Amazon"
  {
    var o := "HTTP://Amazon";
    assert o[..7] == "HTTP://";
    assert UrlAt(o, 0);
    RunEndIs(o, 0, |o|);
    FirstUrlIs(o, 0);
  }
}
