/** The two settings the validation pass consults, parsed from their raw
    environment values, and the sensitive-domain test built on them. */
module Config {
  import opened Wrappers
  import opened Text

  /** `enable_mcp_validation` and `skip_mcp_domains`. */
  datatype Settings = Settings(enableValidation: bool, skipDomains: seq<string>)

  /** A skip-list entry as the parser leaves it: non-empty, already
      stripped, and free of the list separator. */
  predicate CleanDomain(d: string) {
    d != [] && Strip(d) == d && ',' !in d
  }

  predicate AllClean(ds: seq<string>) {
    forall k :: 0 <= k < |ds| ==> CleanDomain(ds[k])
  }

  /** `ENABLE_MCP_VALIDATION`, defaulting to "true": on exactly when the
      value is some capitalisation of "true". */
  function ParseFlag(raw: Option<string>): (on: bool)
    ensures raw.None? ==> on
    ensures raw.Some? ==>
      (on <==> |raw.value| == 4 && forall k :: 0 <= k < 4 ==> LowerChar(raw.value[k]) == "true"[k])
  {
    Lower(raw.GetOr("true")) == "true"
  }

  /** Some piece strips to `d`. */
  predicate StripsTo(pieces: seq<string>, d: string) {
    exists m :: 0 <= m < |pieces| && Strip(pieces[m]) == d
  }

  /** The stripped, non-empty pieces of a comma-split value, in order:
      every one of them is clean. `CleanedMembers` says which domains
      are listed, and `CleanedOne` and `CleanedAppend` fix the order. */
  function Cleaned(pieces: seq<string>): (ds: seq<string>)
    requires forall m :: 0 <= m < |pieces| ==> ',' !in pieces[m]
    ensures |ds| <= |pieces|
    ensures AllClean(ds)
    decreases |pieces|
  {
    if |pieces| == 0 then []
    else
      var rest := Cleaned(pieces[1..]);
      var d := Strip(pieces[0]);
      StripIdempotent(pieces[0]);
      StripKeepsOut(pieces[0], ',');
      if d == [] then rest else [d] + rest
  }

  /** A domain is listed exactly when some piece strips to it and it is
      not empty. */
  lemma {:induction false} CleanedMembers(pieces: seq<string>, d: string)
    requires forall m :: 0 <= m < |pieces| ==> ',' !in pieces[m]
    ensures d in Cleaned(pieces) <==> d != [] && StripsTo(pieces, d)
    decreases |pieces|
  {
    if |pieces| > 0 {
      CleanedMembers(pieces[1..], d);
      if StripsTo(pieces, d) && Strip(pieces[0]) != d {
        var m :| 0 <= m < |pieces| && Strip(pieces[m]) == d;
        assert pieces[1..][m - 1] == pieces[m];
      }
      if StripsTo(pieces[1..], d) {
        var m :| 0 <= m < |pieces[1..]| && Strip(pieces[1..][m]) == d;
        assert pieces[m + 1] == pieces[1..][m];
      }
    }
  }

  /** No non-blank piece is lost. */
  lemma CleanedCovers(pieces: seq<string>)
    requires forall m :: 0 <= m < |pieces| ==> ',' !in pieces[m]
    ensures forall m :: 0 <= m < |pieces| && Strip(pieces[m]) != [] ==> Strip(pieces[m]) in Cleaned(pieces)
  {
    forall m | 0 <= m < |pieces| && Strip(pieces[m]) != []
      ensures Strip(pieces[m]) in Cleaned(pieces)
    {
      CleanedMembers(pieces, Strip(pieces[m]));
    }
  }

  /** A single piece gives its stripped text, or nothing when it is
      blank. */
  lemma CleanedOne(piece: string)
    requires ',' !in piece
    ensures Cleaned([piece]) == CleanedOneOf(piece)
  {
    assert [piece][1..] == [];
  }

  /** What one piece contributes: its stripped text, unless that is blank. */
  function CleanedOneOf(piece: string): seq<string> {
    if Strip(piece) == [] then [] else [Strip(piece)]
  }

  /** The pieces are cleaned one by one, in order. */
  lemma {:induction false} CleanedAppend(a: seq<string>, b: seq<string>)
    requires forall m :: 0 <= m < |a| ==> ',' !in a[m]
    requires forall m :: 0 <= m < |b| ==> ',' !in b[m]
    ensures Cleaned(a + b) == Cleaned(a) + Cleaned(b)
    decreases |a|
  {
    if |a| == 0 {
      assert a + b == b;
    } else {
      var ab := a + b;
      assert ab[0] == a[0] && ab[1..] == a[1..] + b;
      CleanedAppend(a[1..], b);
      CleanedCons(ab);
      CleanedCons(a);
      Regroup(CleanedOneOf(a[0]), Cleaned(a[1..]), Cleaned(b));
    }
  }

  lemma Regroup(x: seq<string>, y: seq<string>, z: seq<string>)
    ensures x + (y + z) == (x + y) + z
  {
  }

  /** Cleaning unfolded by its first piece. */
  lemma CleanedCons(pieces: seq<string>)
    requires |pieces| > 0 && forall m :: 0 <= m < |pieces| ==> ',' !in pieces[m]
    ensures Cleaned(pieces) == CleanedOneOf(pieces[0]) + Cleaned(pieces[1..])
  {
    var rest := Cleaned(pieces[1..]);
    if Strip(pieces[0]) == [] {
      assert [] + rest == rest;
    }
  }

  /** A stripped piece of a comma-free string is comma-free. */
  lemma StripKeepsOut(s: string, c: char)
    requires c !in s
    ensures c !in Strip(s)
  {
    var i, j :| 0 <= i <= j <= |s| && Strip(s) == s[i..j];
    assert forall x :: x in s[i..j] ==> x in s;
  }

  /** `SKIP_MCP_DOMAINS`, defaulting to "": split on commas, strip each
      piece, drop the empty ones. */
  function ParseSkipDomains(raw: Option<string>): (ds: seq<string>)
    ensures AllClean(ds)
    ensures forall d :: d in ds <==> d != [] && StripsTo(Split(raw.GetOr(""), ','), d)
  {
    forall d ensures d in Cleaned(Split(raw.GetOr(""), ',')) <==> d != [] && StripsTo(Split(raw.GetOr(""), ','), d) {
      CleanedMembers(Split(raw.GetOr(""), ','), d);
    }
    Cleaned(Split(raw.GetOr(""), ','))
  }

  /** Cleaning a list that is already clean changes nothing. */
  lemma {:induction false} CleanedFixed(ds: seq<string>)
    requires AllClean(ds)
    ensures Cleaned(ds) == ds
    decreases |ds|
  {
    if |ds| > 0 {
      assert CleanDomain(ds[0]);
      CleanedFixed(ds[1..]);
      assert ds == [ds[0]] + ds[1..];
    }
  }

  /** Writing a clean domain list as a comma-separated value and parsing it
      back gives the same list. */
  lemma SkipDomainsRoundTrip(ds: seq<string>)
    requires AllClean(ds)
    ensures ParseSkipDomains(Some(Join(ds, ','))) == ds
  {
    if |ds| == 0 {
      assert Split([], ',') == [[]];
      assert Strip([]) == [];
      assert Cleaned([[]]) == Cleaned([]);
    } else {
      SplitJoin(ds, ',');
      CleanedFixed(ds);
    }
  }

  /** `should_skip_mcp_validation`: the URL is non-empty and, once
      lower-cased, contains some non-empty configured domain. The domain
      itself is not lower-cased. */
  function ShouldSkip(domains: seq<string>, url: string): (skip: bool)
    ensures skip <==>
      url != [] && exists k :: 0 <= k < |domains| && domains[k] != [] && Contains(Lower(url), domains[k])
  {
    url != [] && AnyIn(domains, Lower(url))
  }

  /** Some non-empty domain of the list occurs in `lowered`. */
  function AnyIn(domains: seq<string>, lowered: string): (found: bool)
    ensures found <==> exists k :: 0 <= k < |domains| && domains[k] != [] && Contains(lowered, domains[k])
    decreases |domains|
  {
    if |domains| == 0 then false
    else if domains[0] != [] && Contains(lowered, domains[0]) then true
    else
      var found := AnyIn(domains[1..], lowered);
      assert found ==> exists k :: 0 <= k < |domains| && domains[k] != [] && Contains(lowered, domains[k]) by {
        if found {
          var k :| 0 <= k < |domains[1..]| && domains[1..][k] != [] && Contains(lowered, domains[1..][k]);
          assert domains[k + 1] == domains[1..][k];
        }
      }
      assert (exists k :: 0 <= k < |domains| && domains[k] != [] && Contains(lowered, domains[k])) ==> found by {
        if k :| 0 <= k < |domains| && domains[k] != [] && Contains(lowered, domains[k]) {
          assert k != 0;
          assert domains[1..][k - 1] == domains[k];
        }
      }
      found
  }

  /** A lower-case domain matches whatever the capitalisation of the URL. */
  lemma SkipIgnoresUrlCase(domains: seq<string>, u1: string, u2: string)
    requires Lower(u1) == Lower(u2)
    ensures ShouldSkip(domains, u1) == ShouldSkip(domains, u2)
  {
    assert |u1| == |Lower(u1)| == |u2|;
  }

  /** The configured domain "bank" skips "https://MyBank.com/login". */
  lemma SkipBankExample()
    ensures ShouldSkip(["bank"], "https://MyBank.com/login")
  {
    var u := "https://MyBank.com/login";
    var l := Lower(u);
    assert u[10] == 'B' && u[11] == 'a' && u[12] == 'n' && u[13] == 'k';
    assert l[10] == 'b' && l[11] == 'a' && l[12] == 'n' && l[13] == 'k';
    assert l[10..14] == "bank";
    assert OccursAt(l, "bank", 10);
  }

  /** A configured domain holding a capital letter never matches: only the
      URL side is lower-cased. */
  lemma CapitalDomainNeverSkips(domains: seq<string>, url: string)
    requires forall k :: 0 <= k < |domains| ==> exists m :: 0 <= m < |domains[k]| && 'A' <= domains[k][m] <= 'Z'
    ensures !ShouldSkip(domains, url)
  {
    forall k | 0 <= k < |domains| ensures !Contains(Lower(url), domains[k]) {
      var m :| 0 <= m < |domains[k]| && 'A' <= domains[k][m] <= 'Z';
      CapitalNeverInLower(url, domains[k], m);
    }
  }
}
