/** Character and string helpers with the meaning Python's `str` gives them
    where the application relies on it: whitespace, ASCII lower-casing,
    substring search, `strip()`, `split(sep)` and `replace(c, "")`. */
module Text {

  /** Python's whitespace class: the characters `str.isspace()` accepts and
      that `\s` matches in a `str` regular expression. */
  predicate IsSpace(c: char) {
    || c == ' '
    || ('\t' <= c <= '\r')
    || ('\U{1C}' <= c <= '\U{1F}')
    || c == '\U{85}' || c == '\U{A0}' || c == '\U{1680}'
    || ('\U{2000}' <= c <= '\U{200A}')
    || c == '\U{2028}' || c == '\U{2029}' || c == '\U{202F}'
    || c == '\U{205F}' || c == '\U{3000}'
  }

  /** `c.lower()` restricted to the ASCII letters. */
  function LowerChar(c: char): char {
    if 'A' <= c <= 'Z' then (c as int + 32) as char else c
  }

  function Lower(s: string): (r: string)
    ensures |r| == |s|
    ensures forall k :: 0 <= k < |s| ==> r[k] == LowerChar(s[k])
  {
    seq(|s|, k requires 0 <= k < |s| => LowerChar(s[k]))
  }

  /** `sub` occurs in `s` at index `i`. */
  predicate OccursAt(s: string, sub: string, i: int) {
    0 <= i && i + |sub| <= |s| && s[i..i + |sub|] == sub
  }

  /** Python's `sub in s`. */
  predicate Contains(s: string, sub: string) {
    exists i | 0 <= i <= |s| - |sub| :: OccursAt(s, sub, i)
  }

  // ---------------------------------------------------------------------
  // strip()

  /** Number of leading whitespace characters. */
  function LeadingSpace(s: string): (n: nat)
    ensures n <= |s|
    ensures forall k :: 0 <= k < n ==> IsSpace(s[k])
    ensures n < |s| ==> !IsSpace(s[n])
  {
    if |s| > 0 && IsSpace(s[0]) then 1 + LeadingSpace(s[1..]) else 0
  }

  /** End of `s` once trailing whitespace is dropped, never below `lo`. */
  function TrailingCut(s: string, lo: nat): (j: nat)
    requires lo <= |s|
    ensures lo <= j <= |s|
    ensures forall k :: j <= k < |s| ==> IsSpace(s[k])
    ensures j > lo ==> !IsSpace(s[j - 1])
    decreases |s|
  {
    if |s| > lo && IsSpace(s[|s| - 1]) then
      var j := TrailingCut(s[..|s| - 1], lo);
      assert forall k :: j <= k < |s| - 1 ==> s[..|s| - 1][k] == s[k];
      j
    else |s|
  }

  predicate Trimmed(s: string) {
    |s| == 0 || (!IsSpace(s[0]) && !IsSpace(s[|s| - 1]))
  }

  /** `s` is `t` with some whitespace added at both ends. */
  predicate Padded(s: string, t: string) {
    exists i, j | 0 <= i <= j <= |s| ::
      && t == s[i..j]
      && (forall k :: 0 <= k < i ==> IsSpace(s[k]))
      && (forall k :: j <= k < |s| ==> IsSpace(s[k]))
  }

  /** Python's `s.strip()` with no argument. */
  function Strip(s: string): (r: string)
    ensures Trimmed(r)
    ensures Padded(s, r)
  {
    var i := LeadingSpace(s);
    var j := TrailingCut(s, i);
    assert i == j || !IsSpace(s[i]);
    s[i..j]
  }

  /** Only one trimmed core hides inside a padded string, so `Strip` is the
      unique answer and stripping twice changes nothing. */
  lemma StripUnique(s: string, t: string)
    requires Trimmed(t) && Padded(s, t)
    ensures Strip(s) == t
  {
    var i, j :| && 0 <= i <= j <= |s| && t == s[i..j]
                && (forall k :: 0 <= k < i ==> IsSpace(s[k]))
                && (forall k :: j <= k < |s| ==> IsSpace(s[k]));
    var a := LeadingSpace(s);
    if i < j {
      assert !IsSpace(s[i]) && !IsSpace(s[j - 1]);
      assert a == i;
      TrailingCutIs(s, a, j);
    } else {
      assert forall k :: 0 <= k < |s| ==> IsSpace(s[k]);
      assert a == |s|;
    }
  }

  /** `TrailingCut` stops at the last non-whitespace character at or after
      `lo`. */
  lemma {:induction false} TrailingCutIs(s: string, lo: nat, j: nat)
    requires lo < j <= |s| && !IsSpace(s[j - 1])
    requires forall k :: j <= k < |s| ==> IsSpace(s[k])
    ensures TrailingCut(s, lo) == j
    decreases |s|
  {
    if |s| > j {
      assert s[..|s| - 1][j - 1] == s[j - 1];
      TrailingCutIs(s[..|s| - 1], lo, j);
    }
  }

  /** Stripping a string whose only outer whitespace is one final
      character drops just that character. */
  lemma StripLast(s: string)
    requires |s| >= 2 && !IsSpace(s[0]) && !IsSpace(s[|s| - 2]) && IsSpace(s[|s| - 1])
    ensures Strip(s) == s[..|s| - 1]
  {
    assert LeadingSpace(s) == 0;
    TrailingCutIs(s, 0, |s| - 1);
  }

  lemma StripIdempotent(s: string)
    ensures Strip(Strip(s)) == Strip(s)
  {
    var t := Strip(s);
    assert t == t[0..|t|];
    StripUnique(t, t);
  }

  // ---------------------------------------------------------------------
  // split(sep) and its inverse sep.join(parts)

  /** Python's `sep.join(parts)`. */
  function Join(parts: seq<string>, sep: char): string {
    if |parts| == 0 then []
    else if |parts| == 1 then parts[0]
    else parts[0] + [sep] + Join(parts[1..], sep)
  }

  /** Index of the first `sep` in `s`, `|s|` when there is none. */
  function IndexOf(s: string, sep: char): (i: nat)
    ensures i <= |s|
    ensures i < |s| ==> s[i] == sep
    ensures sep !in s[..i]
  {
    if |s| == 0 then 0 else if s[0] == sep then 0 else 1 + IndexOf(s[1..], sep)
  }

  /** Python's `s.split(sep)` for a one-character separator: always at least
      one part, no part holds `sep`, and joining the parts gives `s` back. */
  function Split(s: string, sep: char): (parts: seq<string>)
    ensures |parts| >= 1
    ensures forall k :: 0 <= k < |parts| ==> sep !in parts[k]
    ensures Join(parts, sep) == s
    decreases |s|
  {
    var i := IndexOf(s, sep);
    if i == |s| then [s]
    else
      var rest := Split(s[i + 1..], sep);
      assert s == s[..i] + [sep] + s[i + 1..];
      [s[..i]] + rest
  }

  /** The first part of a split is everything before the first separator. */
  lemma SplitFirst(s: string, sep: char)
    ensures Split(s, sep)[0] == s[..IndexOf(s, sep)]
  {
  }

  /** The other direction of the round trip: splitting a join of
      separator-free parts recovers the parts. */
  lemma {:induction false} SplitJoin(parts: seq<string>, sep: char)
    requires |parts| >= 1
    requires forall k :: 0 <= k < |parts| ==> sep !in parts[k]
    ensures Split(Join(parts, sep), sep) == parts
    decreases |parts|
  {
    var head := parts[0];
    if |parts| > 1 {
      var tail := Join(parts[1..], sep);
      var s := head + [sep] + tail;
      assert Join(parts, sep) == s;
      assert s == head + ([sep] + tail);
      assert IndexOf([sep] + tail, sep) == 0;
      IndexOfPrefix(head, [sep] + tail, sep);
      var i := IndexOf(s, sep);
      assert i == |head|;
      assert s[..i] == head;
      assert s[i + 1..] == tail;
      SplitJoin(parts[1..], sep);
      assert Split(s, sep) == [head] + Split(tail, sep);
      assert parts == [head] + parts[1..];
    } else {
      IndexOfPrefix(head, [], sep);
      assert head + [] == head;
      assert Join(parts, sep) == head;
      assert parts == [head];
    }
  }

  lemma {:induction false} IndexOfPrefix(a: string, b: string, sep: char)
    requires sep !in a
    ensures IndexOf(a + b, sep) == |a| + (if |b| == 0 then 0 else IndexOf(b, sep))
    decreases |a|
  {
    if |a| > 0 {
      assert (a + b)[1..] == a[1..] + b;
      assert a[0] in a;
      assert forall x :: x in a[1..] ==> x in a;
      IndexOfPrefix(a[1..], b, sep);
    } else {
      assert a + b == b;
    }
  }

  // ---------------------------------------------------------------------
  // Splitting on a separator of several characters

  /** Index of the first occurrence of `sep` in `s`, `|s|` when there is
      none. */
  function Find(s: string, sep: string): (i: nat)
    requires sep != []
    ensures i <= |s|
    ensures i < |s| ==> OccursAt(s, sep, i)
    ensures forall j :: 0 <= j < i ==> !OccursAt(s, sep, j)
    decreases |s|
  {
    if |s| < |sep| then |s|
    else if s[..|sep|] == sep then 0
    else
      var i := Find(s[1..], sep);
      assert forall j :: 1 <= j <= i ==> !OccursAt(s, sep, j) by {
        forall j | 1 <= j <= i ensures !OccursAt(s, sep, j) {
          OccursShift(s, sep, j);
        }
      }
      assert i < |s| - 1 ==> OccursAt(s, sep, i + 1) by {
        if i < |s| - 1 {
          OccursShift(s, sep, i + 1);
        }
      }
      1 + i
  }

  lemma OccursShift(s: string, sep: string, j: nat)
    requires 1 <= j <= |s|
    ensures OccursAt(s, sep, j) <==> OccursAt(s[1..], sep, j - 1)
  {
    if j + |sep| <= |s| {
      assert s[1..][j - 1..] == s[j..];
      assert s[j..j + |sep|] == s[j..][..|sep|];
    }
  }

  /** `sep` never overlaps itself: no proper suffix of it is also a
      prefix. */
  predicate BorderFree(sep: string) {
    forall m :: 0 < m < |sep| ==> sep[m..] != sep[..|sep| - m]
  }

  /** `parts` joined with `sep` between neighbours. */
  function JoinOn(parts: seq<string>, sep: string): string {
    if |parts| == 0 then []
    else if |parts| == 1 then parts[0]
    else parts[0] + sep + JoinOn(parts[1..], sep)
  }

  lemma JoinOnCons(p: string, rest: seq<string>, sep: string)
    requires |rest| >= 1
    ensures JoinOn([p] + rest, sep) == p + sep + JoinOn(rest, sep)
  {
    assert ([p] + rest)[1..] == rest;
  }

  /** `s` cut at every occurrence of `sep`, from the left. */
  function SplitOn(s: string, sep: string): (parts: seq<string>)
    requires sep != []
    ensures |parts| >= 1
    ensures JoinOn(parts, sep) == s
    decreases |s|
  {
    var i := Find(s, sep);
    if i == |s| then [s]
    else
      assert s == s[..i] + sep + s[i + |sep|..];
      [s[..i]] + SplitOn(s[i + |sep|..], sep)
  }

  /** A separator without borders is first found right after a prefix
      that does not contain it. */
  lemma FindAfter(a: string, sep: string, b: string)
    requires sep != [] && BorderFree(sep) && !Contains(a, sep)
    ensures Find(a + sep + b, sep) == |a|
  {
    var s := a + sep + b;
    assert s[|a|..|a| + |sep|] == sep;
    assert OccursAt(s, sep, |a|);
    var i := Find(s, sep);
    if i < |a| {
      assert OccursAt(s, sep, i);
      if i + |sep| <= |a| {
        assert s[i..i + |sep|] == a[i..i + |sep|];
        assert OccursAt(a, sep, i);
      } else {
        OverlapIsBorder(s, sep, i, |a|);
        assert false;
      }
    }
  }

  /** Two occurrences of `sep` less than its length apart make a border
      of it. */
  lemma OverlapIsBorder(s: string, sep: string, i: nat, j: nat)
    requires OccursAt(s, sep, i) && OccursAt(s, sep, j) && i < j < i + |sep|
    ensures sep[j - i..] == sep[..|sep| - (j - i)]
  {
    assert sep[j - i..] == s[i..i + |sep|][j - i..] == s[j..i + |sep|];
    assert sep[..|sep| - (j - i)] == s[j..j + |sep|][..|sep| - (j - i)] == s[j..i + |sep|];
  }

  /** What a piece of `s` contains, `s` contains. */
  lemma ContainsSlice(s: string, i: nat, j: nat, sub: string)
    requires i <= j <= |s| && Contains(s[i..j], sub)
    ensures Contains(s, sub)
  {
    var k :| 0 <= k <= j - i - |sub| && OccursAt(s[i..j], sub, k);
    var w := s[i..j][k..k + |sub|];
    var v := s[i + k..i + k + |sub|];
    assert forall t :: 0 <= t < |sub| ==> w[t] == v[t];
    assert OccursAt(s, sub, i + k);
  }

  /** A string without the separator is found to have none. */
  lemma FindNone(a: string, sep: string)
    requires sep != [] && !Contains(a, sep)
    ensures Find(a, sep) == |a|
  {
  }

  /** Splitting a join of parts that do not hold a border-free separator
      gives back the parts. */
  lemma {:induction false} SplitOnJoin(parts: seq<string>, sep: string)
    requires |parts| >= 1 && sep != [] && BorderFree(sep)
    requires forall k :: 0 <= k < |parts| ==> !Contains(parts[k], sep)
    ensures SplitOn(JoinOn(parts, sep), sep) == parts
    decreases |parts|
  {
    if |parts| == 1 {
      FindNone(parts[0], sep);
    } else {
      var tail := JoinOn(parts[1..], sep);
      var s := parts[0] + sep + tail;
      assert JoinOn(parts, sep) == s;
      FindAfter(parts[0], sep, tail);
      assert s[..|parts[0]|] == parts[0];
      assert s[|parts[0]| + |sep|..] == tail;
      assert SplitOn(s, sep) == [parts[0]] + SplitOn(tail, sep);
      assert forall k :: 0 <= k < |parts| - 1 ==> parts[1..][k] == parts[k + 1];
      SplitOnJoin(parts[1..], sep);
      assert parts == [parts[0]] + parts[1..];
    }
  }

  // ---------------------------------------------------------------------
  // replace(c, "")

  /** `s` with every character of `drop` removed, order kept. */
  function Without(s: string, drop: set<char>): (r: string)
    ensures |r| <= |s|
    ensures forall k :: 0 <= k < |r| ==> r[k] !in drop
  {
    if |s| == 0 then []
    else (if s[0] in drop then [] else [s[0]]) + Without(s[1..], drop)
  }

  /** Removal takes out every occurrence of the dropped characters and
      keeps every occurrence of the others. */
  lemma {:induction false} WithoutCounts(s: string, drop: set<char>)
    ensures forall x :: multiset(Without(s, drop))[x] == if x in drop then 0 else multiset(s)[x]
    decreases |s|
  {
    if |s| > 0 {
      WithoutCounts(s[1..], drop);
      assert s == [s[0]] + s[1..];
    }
  }

  /** A character outside `drop` survives removal exactly when present. */
  lemma {:induction false} WithoutMembership(s: string, drop: set<char>, c: char)
    requires c !in drop
    ensures c in Without(s, drop) <==> c in s
    decreases |s|
  {
    if |s| > 0 {
      WithoutMembership(s[1..], drop, c);
      assert s == [s[0]] + s[1..];
    }
  }

  /** Python's `s.replace(c, "")`: every `c` goes, every other character
      stays as often as it occurs, and in order (`WithoutConcat`). */
  function Delete(s: string, c: char): (r: string)
    ensures c !in r
    ensures multiset(r) == multiset(s)[c := 0]
  {
    WithoutCounts(s, {c});
    Without(s, {c})
  }

  lemma {:induction false} WithoutWithout(s: string, a: set<char>, b: set<char>)
    ensures Without(Without(s, a), b) == Without(s, a + b)
    decreases |s|
  {
    if |s| > 0 {
      var head := if s[0] in a then [] else [s[0]];
      WithoutConcat(head, Without(s[1..], a), b);
      WithoutWithout(s[1..], a, b);
      assert Without(head, b) == if s[0] in a + b then [] else [s[0]];
    }
  }

  lemma {:induction false} WithoutConcat(x: string, y: string, drop: set<char>)
    ensures Without(x + y, drop) == Without(x, drop) + Without(y, drop)
    decreases |x|
  {
    if |x| > 0 {
      assert (x + y)[1..] == x[1..] + y;
      WithoutConcat(x[1..], y, drop);
    } else {
      assert x + y == y;
    }
  }

  /** Removing characters that do not occur changes nothing, and removing
      them once is as good as removing them twice. */
  lemma {:induction false} WithoutIdentity(s: string, drop: set<char>)
    ensures (Without(s, drop) == s) <==> (forall k :: 0 <= k < |s| ==> s[k] !in drop)
    decreases |s|
  {
    if |s| > 0 {
      WithoutIdentity(s[1..], drop);
      if s[0] in drop {
        assert |Without(s, drop)| < |s|;
      } else {
        assert forall k :: 1 <= k < |s| ==> s[k] == s[1..][k - 1];
      }
    }
  }

  // ---------------------------------------------------------------------
  // replace(c, d) and lower()

  /** Python's `s.replace(c, d)` for single characters. */
  function Replace(s: string, c: char, d: char): (r: string)
    ensures |r| == |s|
    ensures forall k :: 0 <= k < |s| ==> r[k] == if s[k] == c then d else s[k]
  {
    if |s| == 0 then [] else [if s[0] == c then d else s[0]] + Replace(s[1..], c, d)
  }

  lemma LowerIdempotent(s: string)
    ensures Lower(Lower(s)) == Lower(s)
  {
  }

  /** Lower-casing never produces an ASCII capital, so a pattern holding one
      never occurs in a lower-cased string. */
  lemma CapitalNeverInLower(s: string, sub: string, k: nat)
    requires k < |sub| && 'A' <= sub[k] <= 'Z'
    ensures !Contains(Lower(s), sub)
  {
    var l := Lower(s);
    forall i | 0 <= i <= |l| - |sub|
      ensures !OccursAt(l, sub, i)
    {
      assert l[i..i + |sub|][k] == l[i + k] != sub[k];
    }
  }
}
