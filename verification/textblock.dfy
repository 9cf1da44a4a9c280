/** The text block a run reports (`formatted_result`): sections, each a
    "### " heading line followed by its body, with one blank line between
    neighbours. The reader here splits such a block back into its
    sections, and the lemmas say which bodies survive the round trip. */
module TextBlock {
  import opened Wrappers
  import opened Text

  datatype Section = Section(heading: string, body: string)

  /** What stands between one section's body and the next heading. */
  const SectionBreak: string := "\n\n### "

  /** The line that opens a block with `heading`. */
  function Opening(heading: string): string {
    "### " + heading + "\n"
  }

  /** A blank line and the heading line of a later section. */
  function Following(heading: string): string {
    SectionBreak + heading + "\n"
  }

  /** One section as written: the heading on its own line, then the body. */
  function SectionText(s: Section): string {
    s.heading + "\n" + s.body
  }

  function Render(sections: seq<Section>): string {
    "### " + JoinOn(seq(|sections|, k requires 0 <= k < |sections| => SectionText(sections[k])), SectionBreak)
  }

  /** Two sections, written out. */
  lemma RenderTwo(h0: string, b0: string, h1: string, b1: string)
    ensures Render([Section(h0, b0), Section(h1, b1)]) == Opening(h0) + (b0 + (Following(h1) + b1))
  {
    var ss := [Section(h0, b0), Section(h1, b1)];
    var t0, t1 := SectionText(ss[0]), SectionText(ss[1]);
    var texts := seq(|ss|, k requires 0 <= k < |ss| => SectionText(ss[k]));
    assert texts == [t0] + [t1];
    JoinStep(t0, [t1]);
    Relink(h1, b1, []);
    assert t1 + [] == t1 && b1 + [] == b1;
    Opened(h0, b0, SectionBreak + t1);
  }

  /** Four sections, written out. */
  lemma RenderFour(h0: string, b0: string, h1: string, b1: string,
                   h2: string, b2: string, h3: string, b3: string)
    ensures Render([Section(h0, b0), Section(h1, b1), Section(h2, b2), Section(h3, b3)])
         == Opening(h0) + (b0 + (Following(h1) + (b1 + (Following(h2) + (b2 + (Following(h3) + b3))))))
  {
    var ss := [Section(h0, b0), Section(h1, b1), Section(h2, b2), Section(h3, b3)];
    var t0, t1, t2, t3 := SectionText(ss[0]), SectionText(ss[1]), SectionText(ss[2]), SectionText(ss[3]);
    var texts := seq(|ss|, k requires 0 <= k < |ss| => SectionText(ss[k]));
    assert texts == [t0, t1, t2, t3];
    assert texts == [t0] + ([t1] + ([t2] + [t3]));
    var j2 := JoinOn([t2] + [t3], SectionBreak);
    var j1 := JoinOn([t1] + ([t2] + [t3]), SectionBreak);
    JoinStep(t2, [t3]);
    JoinStep(t1, [t2] + [t3]);
    JoinStep(t0, [t1] + ([t2] + [t3]));
    var x3 := Following(h3) + b3;
    Relink(h3, b3, []);
    assert t3 + [] == t3 && b3 + [] == b3;
    var x2 := Following(h2) + (b2 + x3);
    Relink(h2, b2, x3);
    var x1 := Following(h1) + (b1 + x2);
    Relink(h1, b1, x2);
    Opened(h0, b0, x1);
  }

  /** Joining one more text onto a non-empty list. */
  lemma JoinStep(t: string, rest: seq<string>)
    requires |rest| >= 1
    ensures JoinOn([t] + rest, SectionBreak) == t + (SectionBreak + JoinOn(rest, SectionBreak))
  {
    JoinOnCons(t, rest, SectionBreak);
  }

  /** A section written after a break is its heading line and then its
      body. */
  lemma Relink(h: string, b: string, rest: string)
    ensures SectionBreak + (SectionText(Section(h, b)) + rest) == Following(h) + (b + rest)
  {
  }

  /** The first section written after the block's opening "### ". */
  lemma Opened(h: string, b: string, rest: string)
    ensures "### " + (SectionText(Section(h, b)) + rest) == Opening(h) + (b + rest)
  {
  }

  /** A section's text read back: the heading is its first line, the body
      everything after that line. */
  function ReadSection(text: string): (s: Section)
    ensures '\n' !in s.heading
  {
    var i := IndexOf(text, '\n');
    Section(text[..i], if i < |text| then text[i + 1..] else [])
  }

  /** A block read back as its sections; `None` when it does not open with
      a heading. */
  function ReadSections(f: string): Option<seq<Section>> {
    if |f| < 4 || f[..4] != "### " then None
    else
      var parts := SplitOn(f[4..], SectionBreak);
      Some(seq(|parts|, k requires 0 <= k < |parts| => ReadSection(parts[k])))
  }

  /** A section the reader gets back unchanged: a one-line heading, and no
      blank line followed by "### " anywhere in its text. */
  predicate Readable(s: Section) {
    '\n' !in s.heading && !Contains(SectionText(s), SectionBreak)
  }

  lemma BreakBorderFree()
    ensures BorderFree(SectionBreak)
  {
    forall m | 0 < m < |SectionBreak|
      ensures SectionBreak[m..] != SectionBreak[..|SectionBreak| - m]
    {
      if m == 1 {
        assert SectionBreak[m..][1] != SectionBreak[..|SectionBreak| - m][1];
      } else {
        assert SectionBreak[m..][0] != SectionBreak[..|SectionBreak| - m][0];
      }
    }
  }

  lemma ReadSectionText(s: Section)
    requires '\n' !in s.heading
    ensures ReadSection(SectionText(s)) == s
  {
    var text := SectionText(s);
    assert text == s.heading + ("\n" + s.body);
    IndexOfPrefix(s.heading, "\n" + s.body, '\n');
    assert text[..|s.heading|] == s.heading;
    assert text[|s.heading| + 1..] == s.body;
  }

  /** Rendering readable sections and reading the block back gives the
      sections. */
  lemma RenderReadsBack(sections: seq<Section>)
    requires |sections| >= 1
    requires forall k :: 0 <= k < |sections| ==> Readable(sections[k])
    ensures ReadSections(Render(sections)) == Some(sections)
  {
    var texts := seq(|sections|, k requires 0 <= k < |sections| => SectionText(sections[k]));
    var f := Render(sections);
    assert f[..4] == "### " && f[4..] == JoinOn(texts, SectionBreak);
    BreakBorderFree();
    SplitOnJoin(texts, SectionBreak);
    var parts := SplitOn(f[4..], SectionBreak);
    assert parts == texts;
    forall k | 0 <= k < |sections| ensures ReadSection(parts[k]) == sections[k] {
      ReadSectionText(sections[k]);
    }
    assert seq(|parts|, k requires 0 <= k < |parts| => ReadSection(parts[k])) == sections;
  }

  /** A line without a newline, a newline, and text that neither opens
      with a newline nor contains a break: no break anywhere. */
  lemma NoBreakAfterLine(a: string, b: string)
    requires '\n' !in a
    requires b == [] || b[0] != '\n'
    requires !Contains(b, SectionBreak)
    ensures !Contains(a + "\n" + b, SectionBreak)
  {
    var s := a + "\n" + b;
    forall i | 0 <= i && i + |SectionBreak| <= |s| ensures !OccursAt(s, SectionBreak, i) {
      var w := s[i..i + |SectionBreak|];
      if i < |a| {
        assert w[0] == a[i] && a[i] in a;
        assert w[0] != SectionBreak[0];
      } else if i == |a| {
        assert w[1] == b[0];
        assert w[1] != SectionBreak[1];
      } else {
        assert w == b[i - |a| - 1..i - |a| - 1 + |SectionBreak|];
        assert !OccursAt(b, SectionBreak, i - |a| - 1);
      }
    }
  }

  /** A heading on one line over a body that does not open with a newline
      and holds no break makes a readable section. */
  lemma HeadedReadable(heading: string, body: string)
    requires forall k :: 0 <= k < |heading| ==> heading[k] != '\n'
    requires body == [] || body[0] != '\n'
    requires !Contains(body, SectionBreak)
    ensures Readable(Section(heading, body))
  {
    NoBreakAfterLine(heading, body);
  }

  /** Text without a newline holds no break. */
  lemma NoBreakInLine(a: string)
    requires '\n' !in a
    ensures !Contains(a, SectionBreak)
  {
    forall i | 0 <= i && i + |SectionBreak| <= |a| ensures !OccursAt(a, SectionBreak, i) {
      assert a[i..i + |SectionBreak|][0] == a[i] && a[i] in a;
    }
  }
}
