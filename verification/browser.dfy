/** The browser, as an oracle. Nothing of the page is modelled: each query
    the engine makes is answered by an input of the model. */
module Browser {

  /** Answer to `locator(selector).first.is_visible()`. */
  datatype Probe = Visible | Hidden | Raises(message: string)

  /** How a browser action (navigation, click, fill, visibility wait, or
      the launch of the browser itself) ends. */
  datatype Outcome = Done | Raised(message: string)

  /** The page as one step of a validation pass finds it: the answer to any
      visibility probe, and how the step's own action ends. */
  datatype StepPage = StepPage(probe: string -> Probe, act: Outcome)
}
