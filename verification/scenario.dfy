/** Test scenarios and their steps, as the language model hands them over.
    A step is a closed variant over its `action`; `Other` stands for an
    action other than "goto", "fill", "click" and "expect", which the
    engine does not recognise. */
module Scenarios {
  import opened Wrappers

  datatype Step =
    | Goto(url: string)
    | Fill(selector: string, value: Option<string>)
    | Click(selector: string)
    | Expect(selector: string, condition: Option<string>)
    | Other(action: string)
  {
    /** The step's `action` string. */
    function Action(): string {
      match this
      case Goto(_) => "goto"
      case Fill(_, _) => "fill"
      case Click(_) => "click"
      case Expect(_, _) => "expect"
      case Other(a) => a
    }

    /** Steps that act on an element found through a selector before they
        run, and so are subject to selector repair. */
    predicate Interactive() {
      Fill? || Click?
    }
  }

  /** The one `expect` condition the engine acts on. */
  const ToBeVisible: string := "toBeVisible"

  datatype Scenario = Scenario(name: string, description: string, steps: seq<Step>)

  /** The same step aimed at another element. */
  function Retarget(s: Step, selector: string): (t: Step)
    requires s.Interactive()
    ensures t.Interactive() && t.selector == selector && t.Action() == s.Action()
    ensures s.Fill? ==> t == Fill(selector, s.value)
  {
    match s
    case Fill(_, v) => Fill(selector, v)
    case Click(_) => Click(selector)
  }

  /** Number of steps in all the scenarios before index `n`. */
  function StepsBefore(scenarios: seq<Scenario>, n: nat): nat
    requires n <= |scenarios|
  {
    if n == 0 then 0 else StepsBefore(scenarios, n - 1) + |scenarios[n - 1].steps|
  }

  /** Number of steps in all the scenarios. */
  function TotalSteps(scenarios: seq<Scenario>): nat {
    StepsBefore(scenarios, |scenarios|)
  }
}
