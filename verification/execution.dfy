/** `execute_scenario_with_playwright`: run one scenario's steps in a fresh
    browser, record the Playwright code each step ran, and report the
    outcome as a text block and a structured report. A failing step does
    not stop the run; it only makes the result false. */
module Execution {
  import opened Wrappers
  import opened Text
  import opened Browser
  import opened Scenarios
  import opened Timestamp
  import opened TextBlock

  // -----------------------------------------------------------------------
  // The code transcript

  /** The steps that run something in the browser. An `expect` whose
      condition is not "toBeVisible", and an unknown action, do nothing. */
  predicate Acts(step: Step) {
    || step.Goto? || step.Fill? || step.Click?
    || (step.Expect? && step.condition == Some(ToBeVisible))
  }

  /** Prefix of the line of a navigation. */
  const GotoCall: string := "await page.goto('"

  /** Prefix shared by every line that acts on a selector. */
  const LocatorCall: string := "await page.locator('"

  /** What follows the selector in a fill line, before the value. */
  const FillCall: string := "').fill('"

  /** How a line with an argument closes. */
  const CallEnd: string := "');\n"

  const ClickTail: string := "').click();\n"
  const WaitTail: string := "').wait_for(state='visible');\n"

  /** `s` starts with `p`. */
  predicate StartsWith(s: string, p: string) {
    |p| <= |s| && s[..|p|] == p
  }

  /** `s` ends with `p`. */
  predicate EndsWith(s: string, p: string) {
    |p| <= |s| && s[|s| - |p|..] == p
  }

  /** The line of Playwright code a step records before it runs; only the
      steps that act record one. */
  function CodeLine(step: Step): (line: Option<string>)
    ensures line.Some? <==> Acts(step)
  {
    match step
    case Goto(url) => Some(GotoCall + url + CallEnd)
    case Fill(sel, value) => Some(LocatorCall + sel + FillCall + value.GetOr("") + CallEnd)
    case Click(sel) => Some(LocatorCall + sel + ClickTail)
    case Expect(sel, condition) =>
      if condition == Some(ToBeVisible) then Some(LocatorCall + sel + WaitTail)
      else None
    case Other(_) => None
  }

  /** A line always starts with "await page." and ends with ";\n". A
      navigation line carries the URL right after the call; a line acting
      on a selector carries it verbatim right after the locator call, and
      a fill line its value (empty when it has none) right after the fill
      call. */
  lemma CodeLineShape(step: Step)
    requires Acts(step)
    ensures var line := CodeLine(step).value;
      && StartsWith(line, LineStart) && EndsWith(line, LineEnd)
      && (step.Goto? ==> OccursAt(line, step.url, |GotoCall|))
      && (!step.Goto? ==> OccursAt(line, step.selector, |LocatorCall|))
      && (step.Fill? ==> OccursAt(line, step.value.GetOr(""), |LocatorCall| + |step.selector| + |FillCall|))
  {
    CallShapes();
    match step
    case Goto(url) =>
      Framed(GotoCall, url, CallEnd);
    case Fill(sel, value) =>
      var v := value.GetOr("");
      assert LocatorCall + sel + FillCall + v + CallEnd == LocatorCall + sel + (FillCall + v + CallEnd);
      Framed(LocatorCall, sel, FillCall + v + CallEnd);
      Framed(LocatorCall + sel + FillCall, v, CallEnd);
    case Click(sel) =>
      Framed(LocatorCall, sel, ClickTail);
    case Expect(sel, _) =>
      Framed(LocatorCall, sel, WaitTail);
  }

  const LineStart: string := "await page."
  const LineEnd: string := ";\n"

  lemma CallShapes()
    ensures StartsWith(GotoCall, LineStart) && StartsWith(LocatorCall, LineStart)
    ensures EndsWith(CallEnd, LineEnd) && EndsWith(ClickTail, LineEnd) && EndsWith(WaitTail, LineEnd)
  {
  }

  /** `mid` sits right after `head` in `head + mid + tail`, whose start
      is `head`'s and whose end is `tail`'s. */
  lemma Framed(head: string, mid: string, tail: string)
    ensures OccursAt(head + mid + tail, mid, |head|)
    ensures StartsWith(head, LineStart) ==> StartsWith(head + mid + tail, LineStart)
    ensures EndsWith(tail, LineEnd) ==> EndsWith(head + mid + tail, LineEnd)
  {
    var s := head + mid + tail;
    assert s[|head|..|head| + |mid|] == mid;
    if |LineStart| <= |head| {
      assert s[..|LineStart|] == head[..|LineStart|];
    }
    if |LineEnd| <= |tail| {
      assert s[|s| - |LineEnd|..] == tail[|tail| - |LineEnd|..];
    }
  }

  /** Reading a line of code back as the step that wrote it. The selector
      runs to the first quote; a URL or a value runs to the closing
      `');`. */
  function ParseCodeLine(line: string): Option<Step> {
    if StartsWith(line, GotoCall) && EndsWith(line, CallEnd) && |GotoCall| + |CallEnd| <= |line| then
      Some(Goto(line[|GotoCall|..|line| - |CallEnd|]))
    else if StartsWith(line, LocatorCall) then
      var rest := line[|LocatorCall|..];
      var i := IndexOf(rest, '\'');
      ParseCall(rest[..i], rest[i..])
    else None
  }

  /** Reading what follows a selector: the call made on it. */
  function ParseCall(sel: string, tail: string): Option<Step> {
    if tail == ClickTail then Some(Click(sel))
    else if tail == WaitTail then Some(Expect(sel, Some(ToBeVisible)))
    else if StartsWith(tail, FillCall) && EndsWith(tail, CallEnd) && |FillCall| + |CallEnd| <= |tail| then
      Some(Fill(sel, Some(tail[|FillCall|..|tail| - |CallEnd|])))
    else None
  }

  lemma ParseGoto(url: string)
    ensures ParseCodeLine(GotoCall + url + CallEnd) == Some(Goto(url))
  {
    var line := GotoCall + url + CallEnd;
    assert line[..|GotoCall|] == GotoCall;
    assert line[|line| - |CallEnd|..] == CallEnd;
    assert line[|GotoCall|..|line| - |CallEnd|] == url;
  }

  /** A quote-free selector is read up to the quote that closes it. */
  lemma ParseLocator(sel: string, tail: string)
    requires '\'' !in sel && |tail| > 0 && tail[0] == '\''
    ensures ParseCodeLine(LocatorCall + sel + tail) == ParseCall(sel, tail)
  {
    var line := LocatorCall + sel + tail;
    assert line[11] == 'l' != GotoCall[11];
    assert !StartsWith(line, GotoCall) by {
      if |GotoCall| <= |line| {
        assert line[..|GotoCall|][11] == line[11];
      }
    }
    assert line[..|LocatorCall|] == LocatorCall;
    var rest := line[|LocatorCall|..];
    assert rest == sel + tail;
    IndexOfPrefix(sel, tail, '\'');
    assert rest[..|sel|] == sel && rest[|sel|..] == tail;
  }

  lemma ParseFill(sel: string, v: string)
    ensures ParseCall(sel, FillCall + v + CallEnd) == Some(Fill(sel, Some(v)))
  {
    var tail := FillCall + v + CallEnd;
    assert tail[3] == 'f' != ClickTail[3] && tail[3] != WaitTail[3];
    assert tail[..|FillCall|] == FillCall;
    assert tail[|tail| - |CallEnd|..] == CallEnd;
    assert tail[|FillCall|..|tail| - |CallEnd|] == v;
  }

  lemma ParseWait(sel: string)
    ensures ParseCall(sel, WaitTail) == Some(Expect(sel, Some(ToBeVisible)))
  {
    assert WaitTail[3] != ClickTail[3];
  }

  /** Every line reads back as its step, provided a selector holds no
      quote; a fill without a value reads back with the empty value it
      typed. */
  lemma CodeLineReadsBack(step: Step)
    requires Acts(step)
    requires !step.Goto? ==> '\'' !in step.selector
    ensures ParseCodeLine(CodeLine(step).value)
         == Some(if step.Fill? then Fill(step.selector, Some(step.value.GetOr(""))) else step)
  {
    match step
    case Goto(url) => ParseGoto(url);
    case Fill(sel, value) =>
      var v := value.GetOr("");
      assert LocatorCall + sel + FillCall + v + CallEnd == LocatorCall + sel + (FillCall + v + CallEnd);
      ParseLocator(sel, FillCall + v + CallEnd);
      ParseFill(sel, v);
    case Click(sel) => ParseLocator(sel, ClickTail);
    case Expect(sel, _) =>
      ParseLocator(sel, WaitTail);
      ParseWait(sel);
  }

  /** `executed_code`: the lines of the steps, in step order. It is built
      before each step runs, so it does not depend on how the steps end. */
  function Transcript(steps: seq<Step>): string {
    if |steps| == 0 then []
    else Transcript(steps[..|steps| - 1]) + CodeLine(steps[|steps| - 1]).GetOr([])
  }

  /** The transcript of consecutive step lists is the concatenation of
      their transcripts. */
  lemma {:induction false} TranscriptAppend(a: seq<Step>, b: seq<Step>)
    ensures Transcript(a + b) == Transcript(a) + Transcript(b)
    decreases |b|
  {
    if |b| > 0 {
      var n := |b| - 1;
      assert (a + b)[..|a| + n] == a + b[..n];
      TranscriptAppend(a, b[..n]);
    } else {
      assert a + b == a;
    }
  }

  /** What the transcript records of a step that acts: a fill without a
      value as a fill of the empty string. */
  function AsRecorded(step: Step): Step {
    if step.Fill? then Fill(step.selector, Some(step.value.GetOr(""))) else step
  }

  /** The steps that act, in order, as the transcript records them. */
  function Recorded(steps: seq<Step>): seq<Step> {
    if |steps| == 0 then []
    else (if Acts(steps[0]) then [AsRecorded(steps[0])] else []) + Recorded(steps[1..])
  }

  /** A step whose line reads back: no newline in what it carries, and no
      quote in its selector. */
  predicate PlainStep(step: Step) {
    match step
    case Goto(url) => '\n' !in url
    case Fill(sel, value) => '\n' !in sel && '\'' !in sel && '\n' !in value.GetOr("")
    case Click(sel) => '\n' !in sel && '\'' !in sel
    case Expect(sel, _) => '\n' !in sel && '\'' !in sel
    case Other(_) => true
  }

  /** A transcript read back line by line, each line parsed as a step. */
  function ReadTranscript(t: string): Option<seq<Step>>
    decreases |t|
  {
    if |t| == 0 then Some([])
    else
      var i := IndexOf(t, '\n');
      if i == |t| then None
      else
        match (ParseCodeLine(t[..i + 1]), ReadTranscript(t[i + 1..]))
        case (Some(step), Some(rest)) => Some([step] + rest)
        case _ => None
  }

  /** Reading the transcript gives back every step that acts, in order. */
  lemma {:induction false} TranscriptReadsBack(steps: seq<Step>)
    requires forall i :: 0 <= i < |steps| ==> PlainStep(steps[i])
    ensures ReadTranscript(Transcript(steps)) == Some(Recorded(steps))
    decreases |steps|
  {
    if |steps| > 0 {
      var first, rest := steps[0], steps[1..];
      assert forall i :: 0 <= i < |rest| ==> rest[i] == steps[i + 1];
      TranscriptReadsBack(rest);
      TranscriptCons(steps);
      ReadStepLine(first, Transcript(rest), Recorded(rest));
    }
  }

  lemma TranscriptCons(steps: seq<Step>)
    requires |steps| > 0
    ensures Transcript(steps) == CodeLine(steps[0]).GetOr([]) + Transcript(steps[1..])
  {
    var head, rest := [steps[0]], steps[1..];
    TranscriptOne(steps[0]);
    TranscriptAppend(head, rest);
    assert head + rest == steps;
  }

  lemma TranscriptOne(step: Step)
    ensures Transcript([step]) == CodeLine(step).GetOr([])
  {
    assert [step][..0] == [];
  }

  /** Reading a step's line, if it has one, in front of a transcript that
      reads back. */
  lemma ReadStepLine(step: Step, t: string, steps: seq<Step>)
    requires PlainStep(step) && ReadTranscript(t) == Some(steps)
    ensures ReadTranscript(CodeLine(step).GetOr([]) + t)
         == Some((if Acts(step) then [AsRecorded(step)] else []) + steps)
  {
    if Acts(step) {
      ReadActingLine(step, t);
    } else {
      assert CodeLine(step).GetOr([]) + t == t;
      assert [] + steps == steps;
    }
  }

  /** A transcript opening with an acting step's line reads that step
      first. */
  lemma ReadActingLine(step: Step, rest: string)
    requires Acts(step) && PlainStep(step)
    ensures ReadTranscript(CodeLine(step).value + rest)
         == match ReadTranscript(rest)
            case Some(steps) => Some([AsRecorded(step)] + steps)
            case None => None
  {
    var line := CodeLine(step).value;
    CodeLineEnds(step);
    ReadTranscriptCons(line, rest);
    CodeLineReadsBack(step);
  }

  /** A transcript that opens with a line reads that line first. */
  lemma ReadTranscriptCons(line: string, rest: string)
    requires |line| >= 1 && line[|line| - 1] == '\n' && '\n' !in line[..|line| - 1]
    ensures ReadTranscript(line + rest)
         == match (ParseCodeLine(line), ReadTranscript(rest))
            case (Some(step), Some(steps)) => Some([step] + steps)
            case _ => None
  {
    var n := |line| - 1;
    assert line + rest == line[..n] + ("\n" + rest);
    IndexOfPrefix(line[..n], "\n" + rest, '\n');
    assert (line + rest)[..n + 1] == line;
    assert (line + rest)[n + 1..] == rest;
  }

  /** A line ends with its only newline. */
  lemma CodeLineEnds(step: Step)
    requires Acts(step) && PlainStep(step)
    ensures var line := CodeLine(step).value;
      |line| >= 1 && line[|line| - 1] == '\n' && '\n' !in line[..|line| - 1]
  {
    var line := CodeLine(step).value;
    CallsOneLine();
    match step
    case Goto(url) =>
      assert line[..|line| - 1] == GotoCall + url + CallEnd[..3];
    case Fill(sel, value) =>
      assert line[..|line| - 1] == LocatorCall + sel + FillCall + value.GetOr("") + CallEnd[..3];
    case Click(sel) =>
      assert line[..|line| - 1] == LocatorCall + sel + ClickTail[..|ClickTail| - 1];
    case Expect(sel, _) =>
      assert line[..|line| - 1] == LocatorCall + sel + WaitTail[..|WaitTail| - 1];
  }

  lemma CallsOneLine()
    ensures '\n' !in GotoCall && '\n' !in LocatorCall && '\n' !in FillCall
    ensures |CallEnd| == 4 && '\n' !in CallEnd[..3] && CallEnd[3] == '\n'
    ensures ClickTail[|ClickTail| - 1] == '\n' && '\n' !in ClickTail[..|ClickTail| - 1]
    ensures WaitTail[|WaitTail| - 1] == '\n' && '\n' !in WaitTail[..|WaitTail| - 1]
  {
    NoNewline(GotoCall);
    NoNewline(LocatorCall);
    NoNewline(FillCall);
    NoNewline(CallEnd[..3]);
    NoNewline(ClickTail[..|ClickTail| - 1]);
    NoNewline(WaitTail[..|WaitTail| - 1]);
  }

  lemma NoNewline(s: string)
    requires forall k :: 0 <= k < |s| ==> s[k] != '\n'
    ensures '\n' !in s
  {
  }

  /** The transcript is empty exactly when no step acts; otherwise it opens
      with the first line's "a" and closes with ";\n". */
  lemma {:induction false} TranscriptShape(steps: seq<Step>)
    ensures Transcript(steps) == [] <==> forall i :: 0 <= i < |steps| ==> !Acts(steps[i])
    ensures Transcript(steps) != [] ==>
      var t := Transcript(steps);
      |t| >= 2 && t[0] == 'a' && t[|t| - 2] == ';' && t[|t| - 1] == '\n'
    decreases |steps|
  {
    if |steps| > 0 {
      var n := |steps| - 1;
      TranscriptShape(steps[..n]);
      var line := CodeLine(steps[n]);
      if line.Some? {
        assert line.value[..11][0] == 'a';
        assert line.value[|line.value| - 2..][0] == ';';
        assert line.value[|line.value| - 2..][1] == '\n';
      }
      assert forall i :: 0 <= i < n ==> steps[..n][i] == steps[i];
    }
  }

  /** `executed_code.strip()` drops only the final newline. */
  lemma StrippedTranscript(steps: seq<Step>)
    requires Transcript(steps) != []
    ensures var t := Transcript(steps); Strip(t) == t[..|t| - 1]
  {
    TranscriptShape(steps);
    StripLast(Transcript(steps));
  }

  // -----------------------------------------------------------------------
  // Running the steps

  /** `final_result` after the steps: true unless some step that acts
      raised. `outcomes(i)` is how step `i`'s browser call ends. */
  function AllPassed(outcomes: nat -> Outcome, steps: seq<Step>): (ok: bool)
    ensures ok <==> forall i :: 0 <= i < |steps| && Acts(steps[i]) ==> outcomes(i).Done?
  {
    if |steps| == 0 then true
    else
      var n := |steps| - 1;
      var prev := AllPassed(outcomes, steps[..n]);
      assert forall i :: 0 <= i < n ==> steps[..n][i] == steps[i];
      prev && (!Acts(steps[n]) || outcomes(n).Done?)
  }

  // -----------------------------------------------------------------------
  // The report

  /** What reading the page's URL and title gave. */
  datatype PageState =
    | PageState(url: string, title: string)
    | StateError(message: string)

  /** The keys the text block looks up in `page_state`. */
  datatype PageKey = UrlKey | TitleKey | SnapshotKey

  /** `page_state.get(key, 'N/A')`: a successful read holds the URL, the
      title and a fixed snapshot note; a failed one holds only the error,
      so every lookup falls back to "N/A". */
  function PageValue(state: PageState, key: PageKey): string {
    match state
    case PageState(url, title) =>
      (match key
       case UrlKey => url
       case TitleKey => title
       case SnapshotKey => "Page snapshot captured")
    case StateError(_) => "N/A"
  }

  const UrlLabel: string := "URL: "
  const TitleLabel: string := "Title: "
  const SnapshotLabel: string := "Snapshot: "

  /** The body of the "Page state" section: three labelled lines. */
  function PageLines(state: PageState): string {
    Join([UrlLabel + PageValue(state, UrlKey), TitleLabel + PageValue(state, TitleKey),
          SnapshotLabel + PageValue(state, SnapshotKey)], '\n')
  }

  /** Reading the "Page state" body back as its URL, title and snapshot. */
  function ReadPageLines(body: string): Option<(string, string, string)> {
    var ls := Split(body, '\n');
    if |ls| == 3 && StartsWith(ls[0], UrlLabel) && StartsWith(ls[1], TitleLabel)
       && StartsWith(ls[2], SnapshotLabel)
    then Some((ls[0][|UrlLabel|..], ls[1][|TitleLabel|..], ls[2][|SnapshotLabel|..]))
    else None
  }

  /** A label and a value read back as the two. */
  lemma Labelled(tag: string, value: string)
    ensures StartsWith(tag + value, tag) && (tag + value)[|tag|..] == value
  {
    assert (tag + value)[..|tag|] == tag;
  }

  /** The value a lookup in the page state shows: free of newlines when the
      page's URL and title are. */
  lemma PageValueOneLine(state: PageState, key: PageKey)
    requires state.PageState? ==> '\n' !in state.url && '\n' !in state.title
    ensures '\n' !in PageValue(state, key)
  {
  }

  /** The page-state lines give back what was read from the page, and
      "N/A" three times when reading it failed. */
  lemma PageStateReadsBack(state: PageState)
    requires state.PageState? ==> '\n' !in state.url && '\n' !in state.title
    ensures ReadPageLines(PageLines(state))
         == Some((PageValue(state, UrlKey), PageValue(state, TitleKey), PageValue(state, SnapshotKey)))
    ensures state.StateError? ==> ReadPageLines(PageLines(state)) == Some(("N/A", "N/A", "N/A"))
  {
    var u, t, n := PageValue(state, UrlKey), PageValue(state, TitleKey), PageValue(state, SnapshotKey);
    PageValueOneLine(state, UrlKey);
    PageValueOneLine(state, TitleKey);
    PageValueOneLine(state, SnapshotKey);
    LabelsOneLine();
    var lines := [UrlLabel + u, TitleLabel + t, SnapshotLabel + n];
    SplitJoin(lines, '\n');
    Labelled(UrlLabel, u);
    Labelled(TitleLabel, t);
    Labelled(SnapshotLabel, n);
  }

  lemma LabelsOneLine()
    ensures '\n' !in UrlLabel && '\n' !in TitleLabel && '\n' !in SnapshotLabel && UrlLabel[0] != '\n'
  {
  }

  lemma JoinThree(a: string, b: string, c: string)
    ensures Join([a, b, c], '\n') == a + "\n" + (b + "\n" + c)
  {
    assert [a, b, c][1..] == [b, c] && [b, c][1..] == [c];
    assert Join([b, c], '\n') == b + "\n" + c;
  }

  /** The page-state lines never hold a blank line. */
  lemma PageLinesNoBreak(state: PageState)
    requires state.PageState? ==> '\n' !in state.url && '\n' !in state.title
    ensures PageLines(state)[0] != '\n' && !Contains(PageLines(state), SectionBreak)
  {
    var u, t, n := PageValue(state, UrlKey), PageValue(state, TitleKey), PageValue(state, SnapshotKey);
    PageValueOneLine(state, UrlKey);
    PageValueOneLine(state, TitleKey);
    PageValueOneLine(state, SnapshotKey);
    LabelsOneLine();
    var l0, l1, l2 := UrlLabel + u, TitleLabel + t, SnapshotLabel + n;
    JoinThree(l0, l1, l2);
    NoBreakInLine(l2);
    NoBreakAfterLine(l1, l2);
    NoBreakAfterLine(l0, l1 + "\n" + l2);
  }

  /** A saved file: its key in `artifacts` and its path. */
  datatype Artifact = Artifact(key: string, path: string)

  /** An artifact whose line reads back: no newline anywhere, no colon in
      the key. */
  predicate OneLine(a: Artifact) {
    '\n' !in a.key && ':' !in a.key && '\n' !in a.path
  }

  /** `report-<stamp>` under the reports directory. */
  function ReportDir(reportsDir: string, clock: string): string {
    reportsDir + "/report-" + FileStamp(clock)
  }

  /** The initial screenshot, the trace and the final screenshot, in the
      order they are saved, each a different file in the report's
      `artifacts` folder. */
  function Artifacts(reportDir: string): (arts: seq<Artifact>)
    ensures |arts| == 3
    ensures arts[0].key == "screenshot" && arts[1].key == "trace" && arts[2].key == "screenshot_final"
    ensures forall k :: 0 <= k < 3 ==>
      exists name :: arts[k].path == reportDir + "/artifacts/" + name && name != [] && '\n' !in name
  {
    var dir := reportDir + "/artifacts/";
    var names := [ScreenshotFile, TraceFile, FinalFile];
    FileNames();
    var arts := [Artifact("screenshot", dir + names[0]), Artifact("trace", dir + names[1]),
                 Artifact("screenshot_final", dir + names[2])];
    assert forall k :: 0 <= k < 3 ==> arts[k].path == dir + names[k] && names[k] != [] && '\n' !in names[k];
    arts
  }

  /** The three files are different files. */
  lemma ArtifactsApart(reportDir: string)
    ensures var arts := Artifacts(reportDir);
      forall j, k :: 0 <= j < k < 3 ==> arts[j].path != arts[k].path
  {
    var arts := Artifacts(reportDir);
    var dir := reportDir + "/artifacts/";
    FileNames();
    assert |arts[0].path| == |dir| + 18 && |arts[1].path| == |dir| + 13 && |arts[2].path| == |dir| + 20;
  }

  /** Under a report directory without a newline, every artifact's line
      reads back. */
  lemma ArtifactsOneLine(reportDir: string)
    requires '\n' !in reportDir
    ensures forall k :: 0 <= k < 3 ==> OneLine(Artifacts(reportDir)[k])
  {
    var arts := Artifacts(reportDir);
    var dir := reportDir + "/artifacts/";
    FileNames();
    ArtifactKeys();
    assert '\n' !in dir by {
      assert '\n' !in "/artifacts/";
    }
    assert arts[0] == Artifact("screenshot", dir + ScreenshotFile);
    assert arts[1] == Artifact("trace", dir + TraceFile);
    assert arts[2] == Artifact("screenshot_final", dir + FinalFile);
  }

  lemma ArtifactKeys()
    ensures OneLine(Artifact("screenshot", [])) && OneLine(Artifact("trace", []))
    ensures OneLine(Artifact("screenshot_final", []))
  {
    KeyOneLine("screenshot");
    KeyOneLine("trace");
    KeyOneLine("screenshot_final");
  }

  /** A key of lower-case letters and underscores. */
  lemma KeyOneLine(key: string)
    requires forall k :: 0 <= k < |key| ==> 'a' <= key[k] <= 'z' || key[k] == '_'
    ensures OneLine(Artifact(key, []))
  {
  }

  const ScreenshotFile: string := "screenshot-001.png"
  const TraceFile: string := "trace-001.zip"
  const FinalFile: string := "screenshot-final.png"

  lemma FileNames()
    ensures '\n' !in ScreenshotFile && '\n' !in TraceFile && '\n' !in FinalFile
    ensures |ScreenshotFile| == 18 && |TraceFile| == 13 && |FinalFile| == 20
  {
  }

  /** One "key: path" line. */
  function ArtifactLine(a: Artifact): string {
    a.key + ": " + a.path
  }

  /** The body of the "Artifacts" section: every artifact's line, in order,
      each ended by a newline. */
  function ArtifactLines(arts: seq<Artifact>): string {
    if |arts| == 0 then []
    else ArtifactLine(arts[0]) + "\n" + ArtifactLines(arts[1..])
  }

  /** An artifact line read back: the key up to the first colon, the path
      after the following space. */
  function ReadArtifactLine(line: string): Option<Artifact> {
    var i := IndexOf(line, ':');
    if i + 2 <= |line| && line[i + 1] == ' ' then Some(Artifact(line[..i], line[i + 2..]))
    else None
  }

  function ReadArtifactList(lines: seq<string>): Option<seq<Artifact>> {
    if |lines| == 0 then Some([])
    else
      match (ReadArtifactLine(lines[0]), ReadArtifactList(lines[1..]))
      case (Some(a), Some(rest)) => Some([a] + rest)
      case _ => None
  }

  /** The "Artifacts" body read back: its lines, the last one left empty by
      the final newline. */
  function ReadArtifacts(body: string): Option<seq<Artifact>> {
    var ls := Split(body, '\n');
    if ls[|ls| - 1] == [] then ReadArtifactList(ls[..|ls| - 1]) else None
  }

  function ArtifactTexts(arts: seq<Artifact>): seq<string> {
    seq(|arts|, k requires 0 <= k < |arts| => ArtifactLine(arts[k]))
  }

  lemma {:induction false} ArtifactLinesJoin(arts: seq<Artifact>)
    ensures ArtifactLines(arts) == Join(ArtifactTexts(arts) + [""], '\n')
    decreases |arts|
  {
    if |arts| > 0 {
      ArtifactLinesJoin(arts[1..]);
      var texts := ArtifactTexts(arts) + [""];
      assert texts[1..] == ArtifactTexts(arts[1..]) + [""];
      assert Join(texts, '\n') == texts[0] + "\n" + Join(texts[1..], '\n');
    }
  }

  lemma ArtifactLineOneLine(a: Artifact)
    requires OneLine(a)
    ensures '\n' !in ArtifactLine(a)
  {
    assert '\n' !in ": ";
  }

  lemma ReadArtifactLineBack(a: Artifact)
    requires ':' !in a.key
    ensures ReadArtifactLine(ArtifactLine(a)) == Some(a)
  {
    var line := ArtifactLine(a);
    assert line == a.key + (": " + a.path);
    IndexOfPrefix(a.key, ": " + a.path, ':');
    assert line[..|a.key|] == a.key && line[|a.key| + 2..] == a.path;
  }

  lemma {:induction false} ReadArtifactListBack(arts: seq<Artifact>)
    requires forall k :: 0 <= k < |arts| ==> OneLine(arts[k])
    ensures ReadArtifactList(ArtifactTexts(arts)) == Some(arts)
    decreases |arts|
  {
    if |arts| > 0 {
      ReadArtifactLineBack(arts[0]);
      ReadArtifactListBack(arts[1..]);
      assert ArtifactTexts(arts)[1..] == ArtifactTexts(arts[1..]);
      assert arts == [arts[0]] + arts[1..];
    }
  }

  /** The "Artifacts" body gives back every artifact, in order. */
  lemma ArtifactsReadBack(arts: seq<Artifact>)
    requires forall k :: 0 <= k < |arts| ==> OneLine(arts[k])
    ensures ReadArtifacts(ArtifactLines(arts)) == Some(arts)
  {
    var lines := ArtifactTexts(arts);
    var texts := lines + [""];
    ArtifactLinesJoin(arts);
    forall k | 0 <= k < |texts| ensures '\n' !in texts[k] {
      if k < |arts| {
        assert texts[k] == ArtifactLine(arts[k]);
        ArtifactLineOneLine(arts[k]);
      }
    }
    SplitJoin(texts, '\n');
    var ls := Split(ArtifactLines(arts), '\n');
    assert ls == texts;
    assert ls[|ls| - 1] == [] && ls[..|ls| - 1] == lines;
    ReadArtifactListBack(arts);
  }

  /** The artifact lines never hold a blank line, nor open with one. */
  lemma {:induction false} ArtifactLinesNoBreak(arts: seq<Artifact>)
    requires forall k :: 0 <= k < |arts| ==> OneLine(arts[k])
    ensures ArtifactLines(arts) == [] || ArtifactLines(arts)[0] != '\n'
    ensures !Contains(ArtifactLines(arts), SectionBreak)
    decreases |arts|
  {
    if |arts| == 0 {
      NoBreakInLine([]);
    } else {
      var line := ArtifactLine(arts[0]);
      ArtifactLinesNoBreak(arts[1..]);
      ArtifactLineOneLine(arts[0]);
      NoBreakAfterLine(line, ArtifactLines(arts[1..]));
      assert line == arts[0].key + (": " + arts[0].path);
      assert line[0] != '\n' by {
        if |arts[0].key| > 0 {
          assert line[0] == arts[0].key[0] && arts[0].key[0] in arts[0].key;
        }
      }
    }
  }

  /** Python's `str(b)` for a bool. */
  function BoolText(b: bool): string {
    if b then "True" else "False"
  }

  /** The four sections of a finished run's text block. */
  function RunSections(finalResult: bool, code: string, state: PageState, arts: seq<Artifact>): seq<Section> {
    [ Section("Result", BoolText(finalResult)),
      Section("Ran Playwright code", Strip(code)),
      Section("Page state", PageLines(state)),
      Section("Artifacts", ArtifactLines(arts)) ]
  }

  /** `formatted_result` of a run that reached the end: the result, the
      stripped code, the page state and the artifacts, as sections. */
  function Formatted(finalResult: bool, code: string, state: PageState, arts: seq<Artifact>): (f: string)
    ensures Opens(f, BoolText(finalResult))
    ensures f == Render(RunSections(finalResult, code, state, arts))
  {
    RenderFour("Result", BoolText(finalResult), "Ran Playwright code", Strip(code),
               "Page state", PageLines(state), "Artifacts", ArtifactLines(arts));
    Opening("Result") + (BoolText(finalResult)
      + (Following("Ran Playwright code") + (Strip(code)
      + (Following("Page state") + (PageLines(state)
      + (Following("Artifacts") + ArtifactLines(arts)))))))
  }

  /** Reading a finished run's text block gives back the result, the
      stripped code, the page state and every artifact, when none of them
      can be mistaken for a section break. */
  lemma FormattedReadsBack(finalResult: bool, code: string, state: PageState, arts: seq<Artifact>)
    requires !Contains(code, SectionBreak)
    requires state.PageState? ==> '\n' !in state.url && '\n' !in state.title
    requires forall k :: 0 <= k < |arts| ==> OneLine(arts[k])
    ensures var s := ReadSections(Formatted(finalResult, code, state, arts));
      && s.Some? && |s.value| == 4
      && s.value[0] == Section("Result", BoolText(finalResult))
      && s.value[1] == Section("Ran Playwright code", Strip(code))
      && s.value[2].heading == "Page state"
      && ReadPageLines(s.value[2].body)
         == Some((PageValue(state, UrlKey), PageValue(state, TitleKey), PageValue(state, SnapshotKey)))
      && s.value[3].heading == "Artifacts"
      && ReadArtifacts(s.value[3].body) == Some(arts)
  {
    var ss := RunSections(finalResult, code, state, arts);
    RunSectionsReadable(finalResult, code, state, arts);
    RenderReadsBack(ss);
    assert ReadSections(Formatted(finalResult, code, state, arts)) == Some(ss);
    assert ss[2].body == PageLines(state) && ss[3].body == ArtifactLines(arts);
    PageStateReadsBack(state);
    ArtifactsReadBack(arts);
  }

  lemma RunSectionsReadable(finalResult: bool, code: string, state: PageState, arts: seq<Artifact>)
    requires !Contains(code, SectionBreak)
    requires state.PageState? ==> '\n' !in state.url && '\n' !in state.title
    requires forall k :: 0 <= k < |arts| ==> OneLine(arts[k])
    ensures var ss := RunSections(finalResult, code, state, arts);
      forall k :: 0 <= k < |ss| ==> Readable(ss[k])
  {
    var ss := RunSections(finalResult, code, state, arts);
    NoBreakInLine(BoolText(finalResult));
    HeadedReadable("Result", BoolText(finalResult));
    StrippedNoBreak(code);
    HeadedReadable("Ran Playwright code", Strip(code));
    PageLinesNoBreak(state);
    HeadedReadable("Page state", PageLines(state));
    ArtifactLinesNoBreak(arts);
    HeadedReadable("Artifacts", ArtifactLines(arts));
  }

  /** Stripping keeps a text free of breaks and leaves no newline in
      front. */
  lemma StrippedNoBreak(code: string)
    requires !Contains(code, SectionBreak)
    ensures Strip(code) == [] || Strip(code)[0] != '\n'
    ensures !Contains(Strip(code), SectionBreak)
  {
    var r := Strip(code);
    var i, j :| 0 <= i <= j <= |code| && r == code[i..j]
      && (forall k :: 0 <= k < i ==> IsSpace(code[k]))
      && (forall k :: j <= k < |code| ==> IsSpace(code[k]));
    if Contains(r, SectionBreak) {
      ContainsSlice(code, i, j, SectionBreak);
    }
  }

  /** `formatted_result` when the run itself failed. The result is written
      in lower case here, unlike the "True"/"False" of a finished run. */
  function ErrorText(message: string): (f: string)
    ensures Opens(f, "false")
    ensures f == Render([Section("Result", "false"), Section("Error", message)])
  {
    RenderTwo("Result", "false", "Error", message);
    Opening("Result") + ("false" + (Following("Error") + message))
  }

  /** Reading the text block of a failed run gives back the error message,
      when the message does not itself look like a section break. */
  lemma ErrorReadsBack(message: string)
    requires !Contains(message, SectionBreak)
    requires message == [] || message[0] != '\n'
    ensures ReadSections(ErrorText(message)) == Some([Section("Result", "false"), Section("Error", message)])
  {
    NoBreakInLine("false");
    NoBreakAfterLine("Result", "false");
    NoBreakAfterLine("Error", message);
    RenderReadsBack([Section("Result", "false"), Section("Error", message)]);
  }

  /** "### Result" and its line end. */
  const ResultHeader: string := Opening("Result")

  /** `f` opens with the result header followed by `word`. */
  predicate Opens(f: string, word: string) {
    |ResultHeader| + |word| <= |f| && f[..|ResultHeader|] == ResultHeader
    && f[|ResultHeader|..|ResultHeader| + |word|] == word
  }

  /** How a reader of the text block recovers the result: "True" after the
      header is a pass, "False" or "false" a failure. */
  function ReadResult(f: string): (r: Option<bool>)
    ensures r == Some(true) ==> |f| >= |ResultHeader| + 4 && f[|ResultHeader|..|ResultHeader| + 4] == "True"
  {
    var h := |ResultHeader|;
    if |f| < h + 4 || f[..h] != ResultHeader then None
    else if f[h..h + 4] == "True" then Some(true)
    else if |f| >= h + 5 && (f[h..h + 5] == "False" || f[h..h + 5] == "false") then Some(false)
    else None
  }

  datatype RunStatus = Completed | Failed

  /** `execution_report`, with the generation time left out. */
  datatype ExecutionReport = ExecutionReport(
    scenario: Scenario, status: RunStatus, totalSteps: nat, executedCode: string,
    pageState: PageState, executionResult: string, artifacts: seq<Artifact>, reportDir: string)

  datatype ExecutionResult =
    | Executed(formatted: string, report: ExecutionReport, artifacts: seq<Artifact>)
    | ExecutionFailed(error: string, formatted: string)

  /** `execute_scenario_with_playwright`. `clock` is the ISO reading the
      report directory is named after; `passError` is the message of an
      exception outside the step loop (creating the folders, launching the
      browser, a screenshot, the trace, writing a report file), which ends
      the run; `outcomes(i)` is how step `i` ends; `state` is what reading
      the page's URL and title gave. */
  function Execute(
    scenario: Scenario, reportsDir: string, clock: string, passError: Option<string>,
    outcomes: nat -> Outcome, state: PageState): (r: ExecutionResult)
    ensures passError.Some? ==> r == ExecutionFailed(passError.value, ErrorText(passError.value))
    ensures passError.None? ==>
      && r.Executed?
      && r.report.scenario == scenario
      && r.report.totalSteps == |scenario.steps|
      && r.report.executedCode == Transcript(scenario.steps)
      && (r.report.status == Completed <==>
          forall i :: 0 <= i < |scenario.steps| && Acts(scenario.steps[i]) ==> outcomes(i).Done?)
      && r.report.pageState == state
      && r.report.reportDir == ReportDir(reportsDir, clock)
      && r.report.executionResult == ReportDir(reportsDir, clock) + "/execution-result.txt"
      && r.artifacts == r.report.artifacts == Artifacts(ReportDir(reportsDir, clock))
      && r.formatted == Formatted(r.report.status == Completed, r.report.executedCode, state, r.artifacts)
  {
    match passError
    case Some(m) => ExecutionFailed(m, ErrorText(m))
    case None =>
      var dir := ReportDir(reportsDir, clock);
      var finalResult := AllPassed(outcomes, scenario.steps);
      var code := Transcript(scenario.steps);
      var arts := Artifacts(dir);
      Executed(
        Formatted(finalResult, code, state, arts),
        ExecutionReport(
          scenario, if finalResult then Completed else Failed, |scenario.steps|, code,
          state, dir + "/execution-result.txt", arts, dir),
        arts)
  }

  /** The reader accepts every way a result is written. */
  lemma ReadsWord(f: string, word: string)
    requires word in {"True", "False", "false"}
    requires Opens(f, word)
    ensures ReadResult(f) == Some(word == "True")
  {
    var h := |ResultHeader|;
    assert f[h..h + 4] == word[..4];
    if word != "True" {
      assert f[h..h + 4][0] == word[0] != 'T';
      assert f[h..h + 5] == word;
    }
  }

  /** The text block and the report agree: reading the result back from the
      text gives true exactly when the report says completed, and false
      when the run failed. */
  lemma ResultReadsBack(
    scenario: Scenario, reportsDir: string, clock: string, passError: Option<string>,
    outcomes: nat -> Outcome, state: PageState)
    ensures var r := Execute(scenario, reportsDir, clock, passError, outcomes, state);
      ReadResult(r.formatted) == Some(r.Executed? && r.report.status == Completed)
  {
    var r := Execute(scenario, reportsDir, clock, passError, outcomes, state);
    if r.Executed? {
      var ok := r.report.status == Completed;
      ReadsWord(r.formatted, BoolText(ok));
    } else {
      ReadsWord(r.formatted, "false");
    }
  }

  /** The text block of a finished run says what its report says: reading
      it gives back the stripped transcript, the page state and the
      report's artifacts, when the transcript holds no section break and
      no path, URL or title spans lines. */
  lemma ExecutedReadsBack(scenario: Scenario, reportsDir: string, clock: string,
                          outcomes: nat -> Outcome, state: PageState)
    requires !Contains(Transcript(scenario.steps), SectionBreak)
    requires '\n' !in ReportDir(reportsDir, clock)
    requires state.PageState? ==> '\n' !in state.url && '\n' !in state.title
    ensures var r := Execute(scenario, reportsDir, clock, None, outcomes, state);
      var s := ReadSections(r.formatted);
      && s.Some? && |s.value| == 4
      && s.value[1].body == Strip(r.report.executedCode)
      && ReadPageLines(s.value[2].body)
         == Some((PageValue(r.report.pageState, UrlKey), PageValue(r.report.pageState, TitleKey),
                  PageValue(r.report.pageState, SnapshotKey)))
      && ReadArtifacts(s.value[3].body) == Some(r.artifacts)
  {
    var dir := ReportDir(reportsDir, clock);
    ArtifactsOneLine(dir);
    FormattedReadsBack(AllPassed(outcomes, scenario.steps), Transcript(scenario.steps), state, Artifacts(dir));
  }

  /** A scenario none of whose steps acts always completes, with nothing
      under "Ran Playwright code". */
  lemma NothingToRun(scenario: Scenario, reportsDir: string, clock: string,
                     outcomes: nat -> Outcome, state: PageState)
    requires forall i :: 0 <= i < |scenario.steps| ==> !Acts(scenario.steps[i])
    ensures var r := Execute(scenario, reportsDir, clock, None, outcomes, state);
      r.report.status == Completed && r.report.executedCode == []
  {
    TranscriptShape(scenario.steps);
  }
}
