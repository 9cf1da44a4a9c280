/** Selector repair: when the selector a step names is not visible, derive
    a token from it and probe three attribute selectors built from that
    token, keeping the first one that is visible. A probe of an alternative
    that raises counts as "not visible"; nothing here ever raises. */
module SelectorRepair {
  import opened Text
  import opened Wrappers
  import opened Browser

  /** Characters the token leaves out. Double quotes are kept. */
  const TokenDrops: set<char> := {'[', ']', '\'', '='}

  /** The selector with `[`, `]`, `'` and `=` deleted, in that order: as a
      whole, the selector less those four characters. */
  function Token(selector: string): (t: string)
    ensures t == Without(selector, TokenDrops)
  {
    var t := Delete(Delete(Delete(Delete(selector, '['), ']'), '\''), '=');
    WithoutWithout(selector, {'['}, {']'});
    WithoutWithout(selector, {'[', ']'}, {'\''});
    WithoutWithout(selector, {'[', ']', '\''}, {'='});
    assert {'['} + {']'} == {'[', ']'};
    assert {'[', ']'} + {'\''} == {'[', ']', '\''};
    assert {'[', ']', '\''} + {'='} == TokenDrops;
    t
  }

  /** How each alternative opens, in the order they are tried: an exact
      test id, then a label and a placeholder that contain the token. */
  const Openers: seq<string> := ["[data-testid=\"", "[aria-label*=\"", "[placeholder*=\""]

  /** How every alternative closes. */
  const Closer: string := "\"]"

  /** The three alternatives, in the order they are tried: alternative `k`
      opens with opener `k`, holds the token right after it, and closes
      the quoted value and the bracket. */
  function Alternatives(selector: string): (alts: seq<string>)
    ensures |alts| == 3
    ensures forall k :: 0 <= k < 3 ==>
      && |alts[k]| == |Openers[k]| + |Token(selector)| + |Closer|
      && alts[k][..|Openers[k]|] == Openers[k]
      && OccursAt(alts[k], Token(selector), |Openers[k]|)
      && alts[k][|alts[k]| - |Closer|..] == Closer
  {
    var t := Token(selector);
    FramesHold(Openers, t);
    Frames(Openers, t)
  }

  /** `t` between each opener and the closer. */
  function Frames(openers: seq<string>, t: string): seq<string> {
    seq(|openers|, k requires 0 <= k < |openers| => openers[k] + t + Closer)
  }

  lemma FramesHold(openers: seq<string>, t: string)
    ensures var alts := Frames(openers, t);
      && |alts| == |openers|
      && forall k :: 0 <= k < |openers| ==>
        && |alts[k]| == |openers[k]| + |t| + |Closer|
        && alts[k][..|openers[k]|] == openers[k]
        && OccursAt(alts[k], t, |openers[k]|)
        && alts[k][|alts[k]| - |Closer|..] == Closer
  {
    forall k | 0 <= k < |openers| {
      Wrapped(openers[k], t, Closer);
    }
  }

  /** `open + mid + close` opens with `open`, holds `mid` right after it and
      closes with `close`. */
  lemma Wrapped(open: string, mid: string, close: string)
    ensures var s := open + mid + close;
      && |s| == |open| + |mid| + |close|
      && s[..|open|] == open
      && OccursAt(s, mid, |open|)
      && s[|s| - |close|..] == close
      && s[..|s| - |close|] == open + mid
  {
    var s := open + mid + close;
    assert s[|open|..|open| + |mid|] == mid;
  }

  /** Reading an alternative back: which opener it starts with and the
      token between that opener and the closer. */
  function ParseAlternative(alt: string): (r: Option<(nat, string)>)
    ensures r.Some? ==> r.value.0 < 3 && alt == Openers[r.value.0] + r.value.1 + Closer
  {
    if |alt| < |Closer| || alt[|alt| - |Closer|..] != Closer then None
    else
      var body := alt[..|alt| - |Closer|];
      var k := OpenerOf(body, Openers);
      if k == |Openers| then None
      else
        assert alt == body + Closer;
        assert body == Openers[k] + body[|Openers[k]|..];
        Some((k, body[|Openers[k]|..]))
  }

  /** Index of the first of `openers` that `s` starts with, `|openers|`
      when none. */
  function OpenerOf(s: string, openers: seq<string>): (k: nat)
    ensures k <= |openers|
    ensures k < |openers| ==> |openers[k]| <= |s| && s[..|openers[k]|] == openers[k]
    ensures forall j :: 0 <= j < k ==> !(|openers[j]| <= |s| && s[..|openers[j]|] == openers[j])
    decreases |openers|
  {
    if |openers| == 0 then 0
    else if |openers[0]| <= |s| && s[..|openers[0]|] == openers[0] then 0
    else
      var k := OpenerOf(s, openers[1..]);
      assert forall j :: 1 <= j < |openers| ==> openers[1..][j - 1] == openers[j];
      1 + k
  }

  /** No two openers share their second character. */
  predicate ToldApart(openers: seq<string>) {
    && (forall k :: 0 <= k < |openers| ==> |openers[k]| >= 2)
    && (forall i, j :: 0 <= i < j < |openers| ==> openers[i][1] != openers[j][1])
  }

  lemma OpenersToldApart()
    ensures ToldApart(Openers)
  {
  }

  /** Among openers told apart, a text is found to open with the one it
      does open with. */
  lemma OpenerOfOwn(openers: seq<string>, k: nat, rest: string)
    requires ToldApart(openers) && k < |openers|
    ensures OpenerOf(openers[k] + rest, openers) == k
  {
    var s := openers[k] + rest;
    assert s[..|openers[k]|] == openers[k];
  }

  /** Each alternative reads back as its own position and the selector's
      token: the three are told apart by their openers, and the token
      survives whatever characters it holds. */
  lemma AlternativeReadsBack(selector: string, k: nat)
    requires k < 3
    ensures ParseAlternative(Alternatives(selector)[k]) == Some((k, Token(selector)))
  {
    var t := Token(selector);
    var alt := Alternatives(selector)[k];
    assert alt == Openers[k] + t + Closer;
    Wrapped(Openers[k], t, Closer);
    var body := alt[..|alt| - |Closer|];
    OpenersToldApart();
    OpenerOfOwn(Openers, k, t);
    assert body[|Openers[k]|..] == t;
  }

  /** What became of the selector. */
  datatype Resolution =
    | Kept                       // the original is visible
    | Replaced(selector: string) // an alternative is visible and takes its place
    | NotFound                   // neither the original nor any alternative is visible
    | SelectorError(message: string) // probing the original raised

  /** A resolution together with the selectors probed, in order. */
  datatype Resolved = Resolved(resolution: Resolution, probed: seq<string>)

  /** `r` is what trying `alts` in order yields: the first visible one, with
      exactly the candidates up to it probed, or not-found after probing
      them all. */
  ghost predicate FirstVisibleOf(probe: string -> Probe, alts: seq<string>, r: Resolved) {
    || (&& r.resolution.NotFound?
        && r.probed == alts
        && forall k :: 0 <= k < |alts| ==> probe(alts[k]) != Visible)
    || (exists k :: && 0 <= k < |alts|
                    && probe(alts[k]) == Visible
                    && (forall j :: 0 <= j < k ==> probe(alts[j]) != Visible)
                    && r.resolution == Replaced(alts[k])
                    && r.probed == alts[..k + 1])
  }

  /** The probing loop over the alternatives. */
  function TryAlternatives(probe: string -> Probe, alts: seq<string>): (r: Resolved)
    ensures FirstVisibleOf(probe, alts, r)
    decreases |alts|
  {
    if |alts| == 0 then Resolved(NotFound, [])
    else if probe(alts[0]) == Visible then Resolved(Replaced(alts[0]), [alts[0]])
    else
      var rest := TryAlternatives(probe, alts[1..]);
      FirstVisibleCons(probe, alts, rest);
      Resolved(rest.resolution, [alts[0]] + rest.probed)
  }

  /** A candidate that is not visible, probed before the rest are tried. */
  lemma FirstVisibleCons(probe: string -> Probe, alts: seq<string>, rest: Resolved)
    requires |alts| > 0 && probe(alts[0]) != Visible
    requires FirstVisibleOf(probe, alts[1..], rest)
    ensures FirstVisibleOf(probe, alts, Resolved(rest.resolution, [alts[0]] + rest.probed))
  {
    var tail := alts[1..];
    assert forall j :: 1 <= j < |alts| ==> alts[j] == tail[j - 1];
    if rest.resolution.NotFound? {
      assert alts == [alts[0]] + tail;
    } else {
      var k :| && 0 <= k < |tail|
               && probe(tail[k]) == Visible
               && (forall j :: 0 <= j < k ==> probe(tail[j]) != Visible)
               && rest.resolution == Replaced(tail[k])
               && rest.probed == tail[..k + 1];
      FoundCons(alts, tail, k);
      var r := Resolved(rest.resolution, [alts[0]] + rest.probed);
      assert && probe(alts[k + 1]) == Visible
             && (forall j :: 0 <= j < k + 1 ==> probe(alts[j]) != Visible)
             && r.resolution == Replaced(alts[k + 1])
             && r.probed == alts[..k + 2];
    }
  }

  /** The first candidate followed by the tail's first `k + 1` is the
      first `k + 2`. */
  lemma FoundCons(alts: seq<string>, tail: seq<string>, k: nat)
    requires |alts| > 0 && tail == alts[1..] && k < |tail|
    ensures [alts[0]] + tail[..k + 1] == alts[..k + 2]
  {
    var front := [alts[0]] + tail[..k + 1];
    assert forall j :: 1 <= j < k + 2 ==> front[j] == alts[..k + 2][j];
  }

  /** Probe the original selector; only when it is reported not visible,
      try the alternatives. */
  function Resolve(probe: string -> Probe, selector: string): (r: Resolved)
    ensures probe(selector) == Visible ==> r == Resolved(Kept, [selector])
    ensures probe(selector).Raises? ==> r == Resolved(SelectorError(probe(selector).message), [selector])
    ensures probe(selector) == Hidden ==>
      && |r.probed| >= 1 && r.probed[0] == selector
      && FirstVisibleOf(probe, Alternatives(selector), Resolved(r.resolution, r.probed[1..]))
  {
    match probe(selector)
    case Visible => Resolved(Kept, [selector])
    case Raises(m) => Resolved(SelectorError(m), [selector])
    case Hidden =>
      var alt := TryAlternatives(probe, Alternatives(selector));
      assert ([selector] + alt.probed)[1..] == alt.probed;
      Resolved(alt.resolution, [selector] + alt.probed)
  }

  /** A replacement is always one of the selector's alternatives. */
  lemma ReplacedByAlternative(probe: string -> Probe, selector: string)
    ensures Resolve(probe, selector).resolution.Replaced? ==>
              Resolve(probe, selector).resolution.selector in Alternatives(selector)
  {
    var r := Resolve(probe, selector);
    if r.resolution.Replaced? {
      var alts := Alternatives(selector);
      var tried := Resolved(r.resolution, r.probed[1..]);
      assert FirstVisibleOf(probe, alts, tried);
      var k :| 0 <= k < |alts| && tried.resolution == Replaced(alts[k]);
    }
  }

  /** The token drops exactly the four characters: nothing else is lost,
      the double quote in particular. */
  lemma TokenKeeps(selector: string, c: char)
    requires c !in TokenDrops
    ensures c in Token(selector) <==> c in selector
  {
    WithoutMembership(selector, TokenDrops, c);
  }

  /** A token is its own token, and a selector without the four characters
      is its own token. */
  lemma TokenIdempotent(selector: string)
    ensures Token(Token(selector)) == Token(selector)
    ensures (forall k :: 0 <= k < |selector| ==> selector[k] !in TokenDrops) ==> Token(selector) == selector
  {
    WithoutWithout(selector, TokenDrops, TokenDrops);
    assert TokenDrops + TokenDrops == TokenDrops;
    WithoutIdentity(selector, TokenDrops);
  }

  /** A selector that is neither visible nor repairable leaves the step
      unresolved, after all four probes. */
  lemma Unrepairable(probe: string -> Probe, selector: string)
    requires probe(selector) == Hidden
    requires forall k :: 0 <= k < 3 ==> probe(Alternatives(selector)[k]) != Visible
    ensures Resolve(probe, selector) == Resolved(NotFound, [selector] + Alternatives(selector))
  {
    var r := Resolve(probe, selector);
    assert r.probed == [r.probed[0]] + r.probed[1..];
  }

  /** The data-testid form is preferred: when it is visible it wins,
      whatever the other two would answer, and they are not probed. */
  lemma TestIdFirst(probe: string -> Probe, selector: string)
    requires probe(selector) == Hidden
    requires probe(Alternatives(selector)[0]) == Visible
    ensures Resolve(probe, selector) == Resolved(Replaced(Alternatives(selector)[0]), [selector, Alternatives(selector)[0]])
  {
    var alts := Alternatives(selector);
    var r := Resolve(probe, selector);
    var k :| && 0 <= k < |alts| && probe(alts[k]) == Visible
             && (forall j :: 0 <= j < k ==> probe(alts[j]) != Visible)
             && r.resolution == Replaced(alts[k])
             && r.probed[1..] == alts[..k + 1];
    assert k == 0;
    assert r.probed == [r.probed[0]] + r.probed[1..];
  }
}
