/** `generate_timestamp`: an ISO-8601 date-time made safe for file names. */
module Timestamp {
  import opened Text

  /** The characters a file-name stamp turns into dashes. */
  function Dashed(c: char): char {
    if c == ':' || c == '.' then '-' else c
  }

  /** `iso.replace(':', '-').replace('.', '-').split('+')[0]`: the stamp is
      the part of `iso` before any `+` offset, with every colon and dot
      turned into a dash. */
  function FileStamp(iso: string): (stamp: string)
    ensures ':' !in stamp && '.' !in stamp && '+' !in stamp
    ensures |stamp| <= |iso|
    ensures '+' !in iso[..|stamp|]
    ensures |stamp| == |iso| || iso[|stamp|] == '+'
    ensures forall k :: 0 <= k < |stamp| ==> stamp[k] == Dashed(iso[k])
  {
    var t := Replace(Replace(iso, ':', '-'), '.', '-');
    SplitFirst(t, '+');
    var n := IndexOf(t, '+');
    assert forall k :: 0 <= k < |iso| ==> t[k] == Dashed(iso[k]);
    assert '+' !in iso[..n] by {
      forall k | 0 <= k < n ensures iso[..n][k] != '+' {
        assert t[..n][k] == t[k] != '+';
      }
    }
    Split(t, '+')[0]
  }

  /** Stamping is idempotent: a stamp has nothing left to rewrite. */
  lemma FileStampIdempotent(iso: string)
    ensures FileStamp(FileStamp(iso)) == FileStamp(iso)
  {
    var s := FileStamp(iso);
    var s2 := FileStamp(s);
    assert |s2| == |s|;
  }

  /** A time with a UTC offset: the offset and its `+` are cut, and the
      colons and dots of the time become dashes. */
  lemma FileStampCutsOffset(time: string, offset: string)
    requires '+' !in time
    ensures var stamp := FileStamp(time + "+" + offset);
      && |stamp| == |time|
      && forall k :: 0 <= k < |time| ==> stamp[k] == Dashed(time[k])
  {
    var iso := time + "+" + offset;
    var stamp := FileStamp(iso);
    assert iso[..|time|] == time && iso[|time|] == '+';
  }
}
