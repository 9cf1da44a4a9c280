/** The validation pass, `validate_with_mcp`: one browser session walks
    every step of every scenario, classifies each step as passed, failed or
    a warning, repairs selectors on the way, and keeps, per scenario, only
    the steps that passed. */
module Validation {
  import opened Wrappers
  import opened Text
  import opened Browser
  import opened Scenarios
  import opened SelectorRepair
  import opened Config

  datatype Status = Passed | Failed | Warning

  /** One entry of `stepDetails`; durations and timestamps are left out. */
  datatype Detail = Detail(step: string, status: Status, reason: Option<string>)

  const NoPageLoaded: string := "No page loaded"

  /** `current_url` names a page. Python takes both `None` and the empty
      string as false, so a navigation to "" loads nothing. */
  predicate Loaded(current: Option<string>) {
    current.Some? && current.value != []
  }

  /** A step's classification, the step as it now stands in the caller's
      scenario (its selector possibly repaired), and the new `current_url`. */
  datatype Checked = Checked(detail: Detail, step: Step, current: Option<string>)

  /** `now` is `orig`, or `orig` aimed at one of its selector's alternatives:
      the only change the pass makes to a step. */
  predicate Retargeted(orig: Step, now: Step) {
    || now == orig
    || (&& orig.Interactive() && now.Interactive()
        && now.selector in Alternatives(orig.selector)
        && now == Retarget(orig, now.selector))
  }

  /** The step's own action has run: passed if it completed, failed with the
      exception text if it raised. */
  function Perform(act: Outcome, step: Step, current: Option<string>): (c: Checked)
    ensures c.step == step && c.current == current && c.detail.step == step.Action()
    ensures c.detail.status == Passed <==> act.Done?
    ensures act.Raised? ==> c.detail == Detail(step.Action(), Failed, Some(act.message))
    ensures act.Done? ==> c.detail.reason == None
  {
    match act
    case Done => Checked(Detail(step.Action(), Passed, None), step, current)
    case Raised(m) => Checked(Detail(step.Action(), Failed, Some(m)), step, current)
  }

  /** A click or a fill on a loaded page: resolve the selector, then act on
      the element found. */
  function Interact(page: StepPage, current: Option<string>, step: Step): (c: Checked)
    requires step.Interactive()
    ensures c.current == current
    ensures Retargeted(step, c.step)
    ensures page.probe(step.selector) == Visible ==> c == Perform(page.act, step, current)
  {
    var r := Resolve(page.probe, step.selector);
    match r.resolution
    case Kept => Perform(page.act, step, current)
    case Replaced(alt) =>
      ReplacedByAlternative(page.probe, step.selector);
      Perform(page.act, Retarget(step, alt), current)
    case NotFound =>
      Checked(Detail(step.Action(), Failed, Some("Selector not found: " + step.selector)), step, current)
    case SelectorError(m) =>
      Checked(Detail(step.Action(), Failed, Some("Selector error: " + m)), step, current)
  }

  /** One iteration of the step loop. */
  function CheckStep(page: StepPage, current: Option<string>, step: Step): (c: Checked)
    ensures c.current == if step.Goto? && page.act.Done? then Some(step.url) else current
    ensures c.detail.status == Warning <==> !step.Goto? && !Loaded(current)
    ensures c.detail.status == Warning ==> c.detail == Detail(step.Action(), Warning, Some(NoPageLoaded))
    ensures step.Goto? ==> (c.detail.status == Passed <==> page.act.Done?)
    ensures c.detail.status != Passed ==> c.detail.reason.Some?
    ensures Retargeted(step, c.step)
    ensures !step.Interactive() ==> c.step == step
    ensures step.Goto? ==> c.detail == if page.act.Done? then Detail("Navigate to " + step.url, Passed, None)
                                       else Detail("goto", Failed, Some(page.act.message))
    ensures !step.Goto? && Loaded(current) ==>
      && (step.Interactive() && page.probe(step.selector) == Visible ==> c == Perform(page.act, step, current))
      && (step.Expect? && step.condition == Some(ToBeVisible) ==> c == Perform(page.act, step, current))
      && (step.Expect? && step.condition != Some(ToBeVisible) ==> c == Checked(Detail("expect", Passed, None), step, current))
      && (step.Other? ==> c == Checked(Detail(step.action, Passed, None), step, current))
  {
    if step.Goto? then
      match page.act
      case Done => Checked(Detail("Navigate to " + step.url, Passed, None), step, Some(step.url))
      case Raised(m) => Checked(Detail("goto", Failed, Some(m)), step, current)
    else
      if !Loaded(current) then Checked(Detail(step.Action(), Warning, Some(NoPageLoaded)), step, current)
      else
        match step
        case Click(_) => Interact(page, current, step)
        case Fill(_, _) => Interact(page, current, step)
        case Expect(_, condition) =>
          if condition == Some(ToBeVisible) then Perform(page.act, step, current)
          else Checked(Detail(step.Action(), Passed, None), step, current)
        case Other(_) => Checked(Detail(step.Action(), Passed, None), step, current)
  }

  /** A hidden selector whose `k`-th alternative is the first visible one
      is replaced by it, and the step then stands or falls with its
      action. */
  lemma RepairedStep(page: StepPage, current: Option<string>, step: Step, k: nat)
    requires step.Interactive() && Loaded(current)
    requires page.probe(step.selector) == Hidden
    requires k < 3 && page.probe(Alternatives(step.selector)[k]) == Visible
    requires forall j :: 0 <= j < k ==> page.probe(Alternatives(step.selector)[j]) != Visible
    ensures var c := CheckStep(page, current, step);
      && c.step == Retarget(step, Alternatives(step.selector)[k])
      && (c.detail.status == Passed <==> page.act.Done?)
  {
    var alts := Alternatives(step.selector);
    var r := Resolve(page.probe, step.selector);
    var tried := Resolved(r.resolution, r.probed[1..]);
    assert FirstVisibleOf(page.probe, alts, tried);
    var k' :| && 0 <= k' < |alts| && page.probe(alts[k']) == Visible
              && (forall j :: 0 <= j < k' ==> page.probe(alts[j]) != Visible)
              && tried.resolution == Replaced(alts[k']);
    assert k' == k;
    CheckReplaced(page, current, step, alts[k]);
  }

  /** On a loaded page, a selector resolved to an alternative makes the
      step act through that alternative. */
  lemma CheckReplaced(page: StepPage, current: Option<string>, step: Step, alt: string)
    requires step.Interactive() && Loaded(current)
    requires Resolve(page.probe, step.selector).resolution == Replaced(alt)
    ensures CheckStep(page, current, step) == Perform(page.act, Retarget(step, alt), current)
  {
    assert CheckStep(page, current, step) == Interact(page, current, step);
  }

  /** A hidden selector none of whose alternatives is visible fails the
      step, naming the selector. */
  lemma SelectorNotFound(page: StepPage, current: Option<string>, step: Step)
    requires step.Interactive() && Loaded(current)
    requires page.probe(step.selector) == Hidden
    requires forall k :: 0 <= k < 3 ==> page.probe(Alternatives(step.selector)[k]) != Visible
    ensures CheckStep(page, current, step)
         == Checked(Detail(step.Action(), Failed, Some("Selector not found: " + step.selector)), step, current)
  {
    Unrepairable(page.probe, step.selector);
  }

  /** A visibility probe of the selector that raises fails the step with the
      probe's message. */
  lemma SelectorErrorStep(page: StepPage, current: Option<string>, step: Step)
    requires step.Interactive() && Loaded(current)
    requires page.probe(step.selector).Raises?
    ensures CheckStep(page, current, step)
         == Checked(Detail(step.Action(), Failed, Some("Selector error: " + page.probe(step.selector).message)), step, current)
  {
  }

  // -----------------------------------------------------------------------
  // Counters

  /** `execution_metrics` without the constant report lists. */
  datatype Metrics = Metrics(
    totalSteps: nat, passedSteps: nat, failedSteps: nat, warningSteps: nat,
    stepDetails: seq<Detail>)

  const NoMetrics: Metrics := Metrics(0, 0, 0, 0, [])

  /** Number of details with the given status. */
  function Count(details: seq<Detail>, status: Status): (n: nat)
    ensures n <= |details|
  {
    if |details| == 0 then 0
    else Count(details[..|details| - 1], status) + (if details[|details| - 1].status == status then 1 else 0)
  }

  /** Every detail is counted in the total and in the counter of its own
      status. */
  predicate Tallied(m: Metrics) {
    && m.totalSteps == |m.stepDetails|
    && m.passedSteps == Count(m.stepDetails, Passed)
    && m.failedSteps == Count(m.stepDetails, Failed)
    && m.warningSteps == Count(m.stepDetails, Warning)
  }

  /** Each status is one of three, so the three counts add up to the whole. */
  lemma {:induction false} CountsPartition(details: seq<Detail>)
    ensures Count(details, Passed) + Count(details, Failed) + Count(details, Warning) == |details|
    decreases |details|
  {
    if |details| > 0 {
      CountsPartition(details[..|details| - 1]);
    }
  }

  lemma CountAppend(details: seq<Detail>, d: Detail, status: Status)
    ensures Count(details + [d], status) == Count(details, status) + (if d.status == status then 1 else 0)
  {
    assert (details + [d])[..|details|] == details;
  }

  /** Bump `totalSteps` and the counter of the detail's status, and append
      the detail. */
  function Record(m: Metrics, d: Detail): (m': Metrics)
    ensures m'.stepDetails == m.stepDetails + [d]
    ensures m'.totalSteps == m.totalSteps + 1
  {
    Metrics(
      m.totalSteps + 1,
      m.passedSteps + (if d.status == Passed then 1 else 0),
      m.failedSteps + (if d.status == Failed then 1 else 0),
      m.warningSteps + (if d.status == Warning then 1 else 0),
      m.stepDetails + [d])
  }

  /** Recording a detail bumps exactly the counter of its status. */
  lemma RecordTallies(m: Metrics, d: Detail)
    requires Tallied(m)
    ensures Tallied(Record(m, d))
  {
    CountAppend(m.stepDetails, d, Passed);
    CountAppend(m.stepDetails, d, Failed);
    CountAppend(m.stepDetails, d, Warning);
  }

  /** How the step loop judges one step from the page it meets and the
      current URL. The pass judges with `CheckStep`; the loop and the
      facts about its bookkeeping hold for any judge. */
  type Judge = (StepPage, Option<string>, Step) -> Checked

  /** The judge moves `current_url` only on a navigation that loads. */
  ghost predicate Navigates(check: Judge) {
    forall page, current, step ::
      check(page, current, step).current == if step.Goto? && page.act.Done? then Some(step.url) else current
  }

  /** The judge turns a step other than a navigation, met with no page
      loaded, into a warning and leaves it as it is. */
  ghost predicate WarnsWithoutPage(check: Judge) {
    forall page: StepPage, current: Option<string>, step: Step | !step.Goto? && !Loaded(current) ::
      check(page, current, step) == Checked(Detail(step.Action(), Warning, Some(NoPageLoaded)), step, current)
  }

  /** The judge changes a step only by retargeting it. */
  ghost predicate OnlyRetargets(check: Judge) {
    forall page, current, step :: Retargeted(step, check(page, current, step).step)
  }

  /** `CheckStep` is such a judge. */
  lemma CheckStepJudges()
    ensures Navigates(CheckStep) && WarnsWithoutPage(CheckStep) && OnlyRetargets(CheckStep)
  {
  }

  // -----------------------------------------------------------------------
  // One scenario

  /** The steps whose detail says passed, in order. */
  function KeepPassed(details: seq<Detail>, steps: seq<Step>): (kept: seq<Step>)
    requires |details| == |steps|
    ensures |kept| == Count(details, Passed)
  {
    if |steps| == 0 then []
    else
      var n := |steps| - 1;
      KeepPassed(details[..n], steps[..n]) + (if details[n].status == Passed then [steps[n]] else [])
  }

  /** State of the step loop after some steps of one scenario: the shared
      metrics, `current_url`, `validated_steps`, and the steps as they now
      stand in the caller's scenario. */
  datatype Walk = Walk(metrics: Metrics, current: Option<string>, kept: seq<Step>, visited: seq<Step>)

  /** The step loop of one scenario, over the pages `pages(0)`,
      `pages(1)`, … its steps meet, from metrics `m0` and no page. */
  function WalkSteps(check: Judge, pages: nat -> StepPage, m0: Metrics, steps: seq<Step>): (w: Walk)
    ensures |w.visited| == |steps|
    ensures |w.metrics.stepDetails| == |m0.stepDetails| + |steps|
    ensures w.metrics.totalSteps == m0.totalSteps + |steps|
    decreases |steps|
  {
    if |steps| == 0 then Walk(m0, None, [], [])
    else
      var n := |steps| - 1;
      var prev := WalkSteps(check, pages, m0, steps[..n]);
      var c := check(pages(n), prev.current, steps[n]);
      Walk(
        Record(prev.metrics, c.detail), c.current,
        prev.kept + (if c.detail.status == Passed then [c.step] else []),
        prev.visited + [c.step])
  }

  /** Unfolding the loop by its last step. */
  lemma WalkLast(check: Judge, pages: nat -> StepPage, m0: Metrics, steps: seq<Step>)
    requires |steps| > 0
    ensures var n := |steps| - 1;
      var prev := WalkSteps(check, pages, m0, steps[..n]);
      var c := check(pages(n), prev.current, steps[n]);
      var w := WalkSteps(check, pages, m0, steps);
      && w.metrics.stepDetails == prev.metrics.stepDetails + [c.detail]
      && w.current == c.current
      && w.kept == prev.kept + (if c.detail.status == Passed then [c.step] else [])
      && w.visited == prev.visited + [c.step]
  {
  }

  /** The loop keeps every counter equal to its count of details. */
  lemma {:induction false} WalkTallies(check: Judge, pages: nat -> StepPage, m0: Metrics, steps: seq<Step>)
    requires Tallied(m0)
    ensures Tallied(WalkSteps(check, pages, m0, steps).metrics)
    decreases |steps|
  {
    if |steps| > 0 {
      var n := |steps| - 1;
      var prev := WalkSteps(check, pages, m0, steps[..n]);
      WalkTallies(check, pages, m0, steps[..n]);
      RecordTallies(prev.metrics, check(pages(n), prev.current, steps[n]).detail);
    }
  }

  /** The details of the loop extend those it started from. */
  lemma {:induction false} WalkExtends(check: Judge, pages: nat -> StepPage, m0: Metrics, steps: seq<Step>)
    ensures WalkSteps(check, pages, m0, steps).metrics.stepDetails[..|m0.stepDetails|] == m0.stepDetails
    decreases |steps|
  {
    if |steps| > 0 {
      WalkExtends(check, pages, m0, steps[..|steps| - 1]);
      WalkLast(check, pages, m0, steps);
    }
  }

  /** Keeping the passed steps of lists extended by one step. */
  lemma KeepPassedLast(details: seq<Detail>, steps: seq<Step>, d: Detail, step: Step)
    requires |details| == |steps|
    ensures KeepPassed(details + [d], steps + [step])
         == KeepPassed(details, steps) + (if d.status == Passed then [step] else [])
  {
    assert (details + [d])[..|details|] == details;
    assert (steps + [step])[..|steps|] == steps;
  }

  /** `validated_steps` holds exactly the steps that passed, in order, each
      as it stands after selector repair. */
  lemma {:induction false} WalkKeepsPassed(check: Judge, pages: nat -> StepPage, steps: seq<Step>)
    ensures var w := WalkSteps(check, pages, NoMetrics, steps);
      w.kept == KeepPassed(w.metrics.stepDetails, w.visited)
    decreases |steps|
  {
    if |steps| > 0 {
      var n := |steps| - 1;
      var prev := WalkSteps(check, pages, NoMetrics, steps[..n]);
      var c := check(pages(n), prev.current, steps[n]);
      WalkKeepsPassed(check, pages, steps[..n]);
      WalkLast(check, pages, NoMetrics, steps);
      KeepPassedLast(prev.metrics.stepDetails, prev.visited, c.detail, c.step);
    }
  }

  /** Each step of `visited` is the step at the same index of `steps`,
      possibly retargeted. */
  predicate AllRetargeted(steps: seq<Step>, visited: seq<Step>) {
    |visited| == |steps| && forall j :: 0 <= j < |steps| ==> Retargeted(steps[j], visited[j])
  }

  lemma AllRetargetedLast(steps: seq<Step>, visited: seq<Step>, step: Step, now: Step)
    requires AllRetargeted(steps, visited) && Retargeted(step, now)
    ensures AllRetargeted(steps + [step], visited + [now])
  {
    forall j | 0 <= j < |steps| + 1 ensures Retargeted((steps + [step])[j], (visited + [now])[j]) {
      if j < |steps| {
        assert (steps + [step])[j] == steps[j] && (visited + [now])[j] == visited[j];
      }
    }
  }

  /** The loop changes a step only by aiming it at one of its selector's
      alternatives. */
  lemma {:induction false} WalkRetargets(check: Judge, pages: nat -> StepPage, m0: Metrics, steps: seq<Step>)
    requires OnlyRetargets(check)
    ensures AllRetargeted(steps, WalkSteps(check, pages, m0, steps).visited)
    decreases |steps|
  {
    if |steps| > 0 {
      var n := |steps| - 1;
      var prev := WalkSteps(check, pages, m0, steps[..n]);
      var c := check(pages(n), prev.current, steps[n]);
      WalkRetargets(check, pages, m0, steps[..n]);
      assert Retargeted(steps[n], c.step);
      WalkLast(check, pages, m0, steps);
      AllRetargetedLast(steps[..n], prev.visited, steps[n], c.step);
      assert steps[..n] + [steps[n]] == steps;
    }
  }

  /** The step at index `k` is classified from the state the steps before it
      leave. */
  lemma {:induction false} WalkAt(check: Judge, pages: nat -> StepPage, m0: Metrics, steps: seq<Step>, k: nat)
    requires k < |steps|
    ensures var c := check(pages(k), WalkSteps(check, pages, m0, steps[..k]).current, steps[k]);
      && WalkSteps(check, pages, m0, steps).metrics.stepDetails[|m0.stepDetails| + k] == c.detail
      && WalkSteps(check, pages, m0, steps).visited[k] == c.step
    decreases |steps|
  {
    var n := |steps| - 1;
    var prev := WalkSteps(check, pages, m0, steps[..n]);
    WalkLast(check, pages, m0, steps);
    if k < n {
      WalkAt(check, pages, m0, steps[..n], k);
      assert steps[..n][..k] == steps[..k] && steps[..n][k] == steps[k];
      assert |m0.stepDetails| + k < |prev.metrics.stepDetails|;
    } else {
      assert steps[..n] == steps[..k];
    }
  }

  /** Without a successful navigation among the steps, `current_url` is
      still unset. */
  lemma {:induction false} NoNavigationNoPage(check: Judge, pages: nat -> StepPage, m0: Metrics, steps: seq<Step>)
    requires Navigates(check)
    requires forall j :: 0 <= j < |steps| ==> !(steps[j].Goto? && pages(j).act.Done?)
    ensures WalkSteps(check, pages, m0, steps).current == None
    decreases |steps|
  {
    if |steps| > 0 {
      var n := |steps| - 1;
      NoNavigationNoPage(check, pages, m0, steps[..n]);
    }
  }

  /** A step other than a navigation, met before any navigation of its
      scenario succeeded, is a warning, not a failure, and is not kept. */
  lemma NoPageWarning(check: Judge, pages: nat -> StepPage, m0: Metrics, steps: seq<Step>, k: nat)
    requires Navigates(check) && WarnsWithoutPage(check)
    requires k < |steps| && !steps[k].Goto?
    requires forall j :: 0 <= j < k ==> !(steps[j].Goto? && pages(j).act.Done?)
    ensures var w := WalkSteps(check, pages, m0, steps);
      && w.metrics.stepDetails[|m0.stepDetails| + k] == Detail(steps[k].Action(), Warning, Some(NoPageLoaded))
      && w.visited[k] == steps[k]
  {
    NoNavigationNoPage(check, pages, m0, steps[..k]);
    WalkAt(check, pages, m0, steps, k);
  }

  /** The metrics carried in do not steer the loop: a scenario walked after
      others gives what it gives alone, its details appended. */
  lemma {:induction false} WalkShift(check: Judge, pages: nat -> StepPage, m0: Metrics, steps: seq<Step>)
    ensures var w := WalkSteps(check, pages, m0, steps);
      var alone := WalkSteps(check, pages, NoMetrics, steps);
      && w.metrics.stepDetails == m0.stepDetails + alone.metrics.stepDetails
      && w.current == alone.current && w.kept == alone.kept && w.visited == alone.visited
    decreases |steps|
  {
    if |steps| > 0 {
      WalkShift(check, pages, m0, steps[..|steps| - 1]);
    }
  }

  /** A navigation that loads, then a fill whose selector cannot be found
      or repaired: one pass, one failure, the page still loaded. */
  lemma NavigateThenMissing(pages: nat -> StepPage, url: string, sel: string)
    requires url != [] && pages(0).act == Done
    requires pages(1).probe(sel) == Hidden
    requires forall k :: 0 <= k < 3 ==> pages(1).probe(Alternatives(sel)[k]) != Visible
    ensures var w := WalkSteps(CheckStep, pages, NoMetrics, [Goto(url), Fill(sel, None)]);
      && w.metrics.totalSteps == 2 && w.metrics.passedSteps == 1
      && w.metrics.failedSteps == 1 && w.metrics.warningSteps == 0
      && w.current == Some(url) && w.kept == [Goto(url)]
  {
    var fill := Fill(sel, None);
    var w1 := NavigateFirst(pages, url);
    var prev, c := WalkOnto(CheckStep, pages, NoMetrics, [Goto(url)], fill);
    SelectorNotFound(pages(1), Some(url), fill);
    assert c.detail.status == Failed;
    assert [Goto(url)] + [fill] == [Goto(url), fill];
  }

  /** A first navigation that loads: one pass, the page loaded, the step
      kept. */
  lemma NavigateFirst(pages: nat -> StepPage, url: string) returns (w: Walk)
    requires pages(0).act == Done
    ensures w == WalkSteps(CheckStep, pages, NoMetrics, [Goto(url)])
    ensures && w.metrics == Record(NoMetrics, Detail("Navigate to " + url, Passed, None))
            && w.current == Some(url) && w.kept == [Goto(url)]
  {
    var steps := [Goto(url)];
    w := WalkSteps(CheckStep, pages, NoMetrics, steps);
    assert steps[..0] == [];
    WalkLast(CheckStep, pages, NoMetrics, steps);
  }

  /** The same two steps followed by a visibility check that holds: three
      steps, two passed, one failed, and the fill left out of the
      validated steps. */
  lemma NavigateFillExpect(pages: nat -> StepPage, url: string, sel: string, target: string)
    requires url != [] && pages(0).act == Done && pages(2).act == Done
    requires pages(1).probe(sel) == Hidden
    requires forall k :: 0 <= k < 3 ==> pages(1).probe(Alternatives(sel)[k]) != Visible
    ensures var w := WalkSteps(CheckStep, pages, NoMetrics,
                               [Goto(url), Fill(sel, None), Expect(target, Some(ToBeVisible))]);
      && w.metrics.totalSteps == 3 && w.metrics.passedSteps == 2
      && w.metrics.failedSteps == 1 && w.metrics.warningSteps == 0
      && w.kept == [Goto(url), Expect(target, Some(ToBeVisible))]
  {
    var first := [Goto(url), Fill(sel, None)];
    NavigateThenMissing(pages, url, sel);
    var shown := Expect(target, Some(ToBeVisible));
    var prev, c := WalkOnto(CheckStep, pages, NoMetrics, first, shown);
    VisibleChecked(pages(2), prev.current, target);
    assert first + [shown] == [Goto(url), Fill(sel, None), shown];
  }

  /** One more step on the end of a walk. */
  lemma WalkOnto(check: Judge, pages: nat -> StepPage, m0: Metrics, steps: seq<Step>, step: Step)
    returns (prev: Walk, c: Checked)
    ensures prev == WalkSteps(check, pages, m0, steps)
    ensures c == check(pages(|steps|), prev.current, step)
    ensures var w := WalkSteps(check, pages, m0, steps + [step]);
      && w.metrics == Record(prev.metrics, c.detail)
      && w.current == c.current
      && w.kept == prev.kept + (if c.detail.status == Passed then [c.step] else [])
  {
    prev := WalkSteps(check, pages, m0, steps);
    c := check(pages(|steps|), prev.current, step);
    assert (steps + [step])[..|steps|] == steps;
  }

  /** A visibility check on a loaded page whose action completes passes. */
  lemma VisibleChecked(page: StepPage, current: Option<string>, target: string)
    requires Loaded(current) && page.act == Done
    ensures CheckStep(page, current, Expect(target, Some(ToBeVisible)))
         == Checked(Detail("expect", Passed, None), Expect(target, Some(ToBeVisible)), current)
  {
  }

  // -----------------------------------------------------------------------
  // All scenarios

  /** The pages the steps of scenario `i` meet. */
  function PagesOf(browser: (nat, nat) -> StepPage, i: nat): nat -> StepPage {
    (j: nat) => browser(i, j)
  }

  /** Metrics, `validated_scenarios`, and the caller's scenarios as the pass
      leaves them. */
  datatype Sweep = Sweep(metrics: Metrics, validated: seq<Scenario>, repaired: seq<Scenario>)

  /** Scenario `i` walked alone, from no page and no metrics. */
  function Alone(check: Judge, browser: (nat, nat) -> StepPage, scenarios: seq<Scenario>, i: nat): Walk
    requires i < |scenarios|
  {
    WalkSteps(check, PagesOf(browser, i), NoMetrics, scenarios[i].steps)
  }

  lemma StepsBeforePrefix(scenarios: seq<Scenario>, n: nat, i: nat)
    requires i <= n <= |scenarios|
    ensures StepsBefore(scenarios[..n], i) == StepsBefore(scenarios, i)
  {
    if i > 0 {
      StepsBeforePrefix(scenarios, n, i - 1);
    }
  }

  lemma StepsBeforeMonotone(scenarios: seq<Scenario>, i: nat, j: nat)
    requires i <= j <= |scenarios|
    ensures StepsBefore(scenarios, i) <= StepsBefore(scenarios, j)
  {
  }

  /** The scenario loop: every scenario walks its steps from a fresh
      `current_url` with the shared metrics; its validated copy keeps only
      the passed steps. Every step of every scenario is counted once. */
  function WalkScenarios(check: Judge, browser: (nat, nat) -> StepPage, scenarios: seq<Scenario>): (s: Sweep)
    ensures |s.validated| == |scenarios| && |s.repaired| == |scenarios|
    ensures |s.metrics.stepDetails| == TotalSteps(scenarios)
    decreases |scenarios|
  {
    if |scenarios| == 0 then Sweep(NoMetrics, [], [])
    else
      var n := |scenarios| - 1;
      var prev := WalkScenarios(check, browser, scenarios[..n]);
      var sc := scenarios[n];
      var w := WalkSteps(check, PagesOf(browser, n), prev.metrics, sc.steps);
      StepsBeforePrefix(scenarios, n, n);
      Sweep(
        w.metrics,
        prev.validated + [Scenario(sc.name, sc.description, w.kept)],
        prev.repaired + [Scenario(sc.name, sc.description, w.visited)])
  }

  /** The scenario loop keeps every counter equal to its count of
      details. */
  lemma {:induction false} SweepTallies(check: Judge, browser: (nat, nat) -> StepPage, scenarios: seq<Scenario>)
    ensures Tallied(WalkScenarios(check, browser, scenarios).metrics)
    decreases |scenarios|
  {
    if |scenarios| > 0 {
      var n := |scenarios| - 1;
      SweepTallies(check, browser, scenarios[..n]);
      SweepLast(check, browser, scenarios);
      WalkTallies(check, PagesOf(browser, n), WalkScenarios(check, browser, scenarios[..n]).metrics, scenarios[n].steps);
    }
  }

  /** Unfolding the scenario loop by its last scenario. */
  lemma SweepLast(check: Judge, browser: (nat, nat) -> StepPage, scenarios: seq<Scenario>)
    requires |scenarios| > 0
    ensures var n := |scenarios| - 1;
      var prev := WalkScenarios(check, browser, scenarios[..n]);
      var w := WalkSteps(check, PagesOf(browser, n), prev.metrics, scenarios[n].steps);
      var s := WalkScenarios(check, browser, scenarios);
      && s.metrics == w.metrics
      && s.validated == prev.validated + [Scenario(scenarios[n].name, scenarios[n].description, w.kept)]
      && s.repaired == prev.repaired + [Scenario(scenarios[n].name, scenarios[n].description, w.visited)]
  {
  }

  /** The last scenario adds what it gives when walked alone. */
  lemma SweepLastAlone(check: Judge, browser: (nat, nat) -> StepPage, scenarios: seq<Scenario>)
    requires |scenarios| > 0
    ensures var n := |scenarios| - 1;
      var prev := WalkScenarios(check, browser, scenarios[..n]);
      var a := Alone(check, browser, scenarios, n);
      var s := WalkScenarios(check, browser, scenarios);
      && s.metrics.stepDetails == prev.metrics.stepDetails + a.metrics.stepDetails
      && s.validated == prev.validated + [Scenario(scenarios[n].name, scenarios[n].description, a.kept)]
      && s.repaired == prev.repaired + [Scenario(scenarios[n].name, scenarios[n].description, a.visited)]
  {
    var n := |scenarios| - 1;
    SweepLast(check, browser, scenarios);
    WalkShift(check, PagesOf(browser, n), WalkScenarios(check, browser, scenarios[..n]).metrics, scenarios[n].steps);
  }

  /** The lists of `parts` one after another. */
  function Flatten<T>(parts: seq<seq<T>>): seq<T> {
    if |parts| == 0 then [] else Flatten(parts[..|parts| - 1]) + parts[|parts| - 1]
  }

  /** Part `i` of a flattened list sits right after the parts before it. */
  lemma FlattenSlice<T>(parts: seq<seq<T>>, i: nat)
    requires i < |parts|
    ensures |Flatten(parts[..i])| + |parts[i]| == |Flatten(parts[..i + 1])| <= |Flatten(parts)|
    ensures Flatten(parts)[|Flatten(parts[..i])|..|Flatten(parts[..i + 1])|] == parts[i]
    decreases |parts|
  {
    var n := |parts| - 1;
    assert parts[..i + 1][..i] == parts[..i];
    if i < n {
      FlattenSlice(parts[..n], i);
      assert parts[..n][..i] == parts[..i];
      assert parts[..n][..i + 1] == parts[..i + 1];
    } else {
      assert parts[..n] == parts[..i];
      assert parts[..i + 1] == parts;
    }
  }

  /** Each scenario's details when walked alone. */
  function AloneDetails(check: Judge, browser: (nat, nat) -> StepPage, scenarios: seq<Scenario>): (parts: seq<seq<Detail>>)
    ensures |parts| == |scenarios|
    ensures forall i :: 0 <= i < |scenarios| ==> parts[i] == Alone(check, browser, scenarios, i).metrics.stepDetails
  {
    seq(|scenarios|, i requires 0 <= i < |scenarios| => Alone(check, browser, scenarios, i).metrics.stepDetails)
  }

  /** The parts before scenario `i` hold as many details as there are steps
      before it. */
  lemma {:induction false} AloneDetailsBefore(check: Judge, browser: (nat, nat) -> StepPage, scenarios: seq<Scenario>, i: nat)
    requires i <= |scenarios|
    ensures |Flatten(AloneDetails(check, browser, scenarios)[..i])| == StepsBefore(scenarios, i)
  {
    if i > 0 {
      var parts := AloneDetails(check, browser, scenarios);
      AloneDetailsBefore(check, browser, scenarios, i - 1);
      assert parts[..i][..i - 1] == parts[..i - 1];
    }
  }

  /** The shared details are the scenarios' own details, in scenario
      order. */
  lemma {:induction false} SweepDetails(check: Judge, browser: (nat, nat) -> StepPage, scenarios: seq<Scenario>)
    ensures WalkScenarios(check, browser, scenarios).metrics.stepDetails == Flatten(AloneDetails(check, browser, scenarios))
    decreases |scenarios|
  {
    if |scenarios| > 0 {
      var n := |scenarios| - 1;
      var parts := AloneDetails(check, browser, scenarios);
      SweepDetails(check, browser, scenarios[..n]);
      SweepLastAlone(check, browser, scenarios);
      AloneDetailsPrefix(check, browser, scenarios, n);
      FlattenLast(parts);
    }
  }

  lemma FlattenLast<T>(parts: seq<seq<T>>)
    requires |parts| > 0
    ensures Flatten(parts) == Flatten(parts[..|parts| - 1]) + parts[|parts| - 1]
  {
  }

  /** A scenario walks alone the same way in any list that holds it at the
      same index. */
  lemma AloneDetailsPrefix(check: Judge, browser: (nat, nat) -> StepPage, scenarios: seq<Scenario>, n: nat)
    requires n <= |scenarios|
    ensures AloneDetails(check, browser, scenarios)[..n] == AloneDetails(check, browser, scenarios[..n])
  {
    var parts := AloneDetails(check, browser, scenarios);
    forall k | 0 <= k < n ensures parts[..n][k] == AloneDetails(check, browser, scenarios[..n])[k] {
      assert scenarios[..n][k] == scenarios[k];
    }
  }

  /** Each scenario's details are its own slice of the shared list, and are
      what the scenario gives when walked alone. */
  lemma EachScenarioDetails(check: Judge, browser: (nat, nat) -> StepPage, scenarios: seq<Scenario>, i: nat)
    requires i < |scenarios|
    ensures StepsBefore(scenarios, i) <= StepsBefore(scenarios, i + 1) <= TotalSteps(scenarios)
    ensures WalkScenarios(check, browser, scenarios).metrics.stepDetails[StepsBefore(scenarios, i)..StepsBefore(scenarios, i + 1)]
         == Alone(check, browser, scenarios, i).metrics.stepDetails
  {
    SweepDetails(check, browser, scenarios);
    var parts := AloneDetails(check, browser, scenarios);
    FlattenSlice(parts, i);
    AloneDetailsBefore(check, browser, scenarios, i);
    AloneDetailsBefore(check, browser, scenarios, i + 1);
    StepsBeforeMonotone(scenarios, i + 1, |scenarios|);
  }

  /** Each scenario's validated copy and its copy in the caller's list carry
      its name and description unchanged, with the steps it gives when
      walked alone. */
  lemma {:induction false} EachScenarioSteps(check: Judge, browser: (nat, nat) -> StepPage, scenarios: seq<Scenario>, i: nat)
    requires i < |scenarios|
    ensures var s := WalkScenarios(check, browser, scenarios);
      var a := Alone(check, browser, scenarios, i);
      && s.validated[i] == Scenario(scenarios[i].name, scenarios[i].description, a.kept)
      && s.repaired[i] == Scenario(scenarios[i].name, scenarios[i].description, a.visited)
    decreases |scenarios|
  {
    var n := |scenarios| - 1;
    SweepLastAlone(check, browser, scenarios);
    if i < n {
      EachScenarioSteps(check, browser, scenarios[..n], i);
      assert scenarios[..n][i] == scenarios[i];
      assert Alone(check, browser, scenarios, i) == Alone(check, browser, scenarios[..n], i);
    }
  }

  /** What the scenario loop leaves for scenario `i`: both copies keep its
      name and description; the caller's copy holds its steps, each at most
      retargeted; and the validated copy holds exactly those of them whose
      detail, in the scenario's own slice of the shared list, says
      passed. */
  lemma SweepScenario(check: Judge, browser: (nat, nat) -> StepPage, scenarios: seq<Scenario>, i: nat)
    requires OnlyRetargets(check) && i < |scenarios|
    ensures StepsBefore(scenarios, i) <= StepsBefore(scenarios, i + 1) <= TotalSteps(scenarios)
    ensures var s := WalkScenarios(check, browser, scenarios);
      && s.validated[i].name == s.repaired[i].name == scenarios[i].name
      && s.validated[i].description == s.repaired[i].description == scenarios[i].description
      && AllRetargeted(scenarios[i].steps, s.repaired[i].steps)
      && s.validated[i].steps
         == KeepPassed(s.metrics.stepDetails[StepsBefore(scenarios, i)..StepsBefore(scenarios, i + 1)], s.repaired[i].steps)
  {
    var pages := PagesOf(browser, i);
    EachScenarioDetails(check, browser, scenarios, i);
    EachScenarioSteps(check, browser, scenarios, i);
    WalkKeepsPassed(check, pages, scenarios[i].steps);
    WalkRetargets(check, pages, NoMetrics, scenarios[i].steps);
  }

  // -----------------------------------------------------------------------
  // The pass

  datatype ReportStatus = Skipped | Completed | Aborted

  /** `executionReport`; timings and the constant lists are left out. */
  datatype ValidationReport = ValidationReport(
    status: ReportStatus, reason: Option<string>,
    totalScenarios: nat, validatedScenarios: nat, metrics: Option<Metrics>)

  /** The result of the pass. `scenarios` is the returned `scenarios` field;
      `callerScenarios` is the caller's own list after the call, which the
      pass changes in place by writing repaired selectors into its steps. */
  datatype ValidationResult = ValidationResult(
    validated: bool, reason: Option<string>, scenarios: seq<Scenario>,
    report: ValidationReport, callerScenarios: seq<Scenario>)

  function Bypass(scenarios: seq<Scenario>, reason: string, reportReason: string, status: ReportStatus): ValidationResult {
    ValidationResult(false, Some(reason), scenarios, ValidationReport(status, Some(reportReason), 0, 0, None), scenarios)
  }

  /** `validate_with_mcp`. `launch` is how starting the browser ends;
      `browser(i, j)` is the page step `j` of scenario `i` meets. */
  function ValidateWithMcp(
    settings: Settings, launch: Outcome, browser: (nat, nat) -> StepPage,
    scenarios: seq<Scenario>, targetUrl: string): (r: ValidationResult)
    ensures !settings.enableValidation ==>
      r == Bypass(scenarios, "MCP validation disabled", "MCP validation disabled", Skipped)
    ensures settings.enableValidation && ShouldSkip(settings.skipDomains, targetUrl) ==>
      r == Bypass(scenarios, "Skipped due to sensitive domain", "Sensitive domain detected", Skipped)
    ensures r.validated <==>
      settings.enableValidation && !ShouldSkip(settings.skipDomains, targetUrl) && launch.Done?
    ensures settings.enableValidation && !ShouldSkip(settings.skipDomains, targetUrl) && launch.Raised? ==>
      r == Bypass(scenarios, launch.message, launch.message, Aborted)
    ensures !r.validated ==> r.scenarios == scenarios && r.callerScenarios == scenarios
    ensures r.validated ==>
      && r.report.status == Completed
      && r.report.metrics.Some?
      && Tallied(r.report.metrics.value)
      && r.report.metrics.value.totalSteps == TotalSteps(scenarios)
      && |r.scenarios| == |r.callerScenarios| == |scenarios|
      && r.report.totalScenarios == r.report.validatedScenarios == |scenarios|
  {
    if !settings.enableValidation then
      Bypass(scenarios, "MCP validation disabled", "MCP validation disabled", Skipped)
    else if targetUrl != [] && ShouldSkip(settings.skipDomains, targetUrl) then
      Bypass(scenarios, "Skipped due to sensitive domain", "Sensitive domain detected", Skipped)
    else
      match launch
      case Raised(m) => Bypass(scenarios, m, m, Aborted)
      case Done =>
        var s := WalkScenarios(CheckStep, browser, scenarios);
        SweepTallies(CheckStep, browser, scenarios);
        ValidationResult(
          true, None, s.validated,
          ValidationReport(Completed, None, |scenarios|, |s.validated|, Some(s.metrics)),
          s.repaired)
  }

  /** Every step of a completed pass is counted once as passed, failed or
      a warning. */
  lemma CountersBalance(
    settings: Settings, launch: Outcome, browser: (nat, nat) -> StepPage,
    scenarios: seq<Scenario>, targetUrl: string)
    ensures var r := ValidateWithMcp(settings, launch, browser, scenarios, targetUrl);
      r.validated ==>
        var m := r.report.metrics.value;
        m.totalSteps == m.passedSteps + m.failedSteps + m.warningSteps
  {
    var r := ValidateWithMcp(settings, launch, browser, scenarios, targetUrl);
    if r.validated {
      CountsPartition(r.report.metrics.value.stepDetails);
    }
  }

  /** In a completed pass, scenario `i` of the result keeps its name and
      description and holds exactly the steps whose details, in its own
      slice of the reported details, say passed, taken as they stand in
      the caller's list afterwards; there each step is the caller's
      original, at most aimed at one of its selector's alternatives. */
  lemma CompletedPass(
    settings: Settings, launch: Outcome, browser: (nat, nat) -> StepPage,
    scenarios: seq<Scenario>, targetUrl: string, i: nat)
    requires ValidateWithMcp(settings, launch, browser, scenarios, targetUrl).validated
    requires i < |scenarios|
    ensures StepsBefore(scenarios, i) <= StepsBefore(scenarios, i + 1) <= TotalSteps(scenarios)
    ensures var r := ValidateWithMcp(settings, launch, browser, scenarios, targetUrl);
      && r.scenarios[i].name == r.callerScenarios[i].name == scenarios[i].name
      && r.scenarios[i].description == r.callerScenarios[i].description == scenarios[i].description
      && AllRetargeted(scenarios[i].steps, r.callerScenarios[i].steps)
      && r.scenarios[i].steps
         == KeepPassed(r.report.metrics.value.stepDetails[StepsBefore(scenarios, i)..StepsBefore(scenarios, i + 1)],
                       r.callerScenarios[i].steps)
  {
    CheckStepJudges();
    SweepScenario(CheckStep, browser, scenarios, i);
  }
}
