# TaaS English execution backend, modelled in Dafny

The backend turns a plain-English test objective into test scenarios, and
checks those scenarios in a headless browser before saving them. A scenario
has a name, a description and a list of steps. Each step is a `goto`,
`fill`, `click`, `expect` or some other action. The backend can also run
one scenario and write a report of that run.

This project models the logic around the browser and proves properties of
it. The browser itself is an oracle: each navigation, visibility probe and
action is an input of the model that says how that call ended. The model
covers these parts of the backend:

- **Settings**: the `ENABLE_MCP_VALIDATION` flag and the
  `SKIP_MCP_DOMAINS` list, parsed from their raw values.
- **Sensitive-domain test**: whether the target URL holds one of the
  configured domains.
- **URL extraction**: the URL named in an objective, taken from the first
  `http(s)://` address, else the first well-known site named, else a
  fallback.
- **File-name timestamp**: the ISO date-time made safe for file names.
- **Validation pass** (`validate_with_mcp`):
  - the per-scenario step loop, with its `current_url` state;
  - the step counters;
  - selector repair through three alternative selectors;
  - the validated scenarios and the caller's repaired scenarios;
  - the two bypass branches.
- **Execution pass** (`execute_scenario_with_playwright`):
  - the Playwright code transcript;
  - the final result;
  - the artifacts;
  - the formatted text block and the structured report.

Modules, one file each:

- `Wrappers` holds `Option`.
- `Text` holds Python's string operations as the backend uses them.
- `Config`, `UrlExtraction` and `Timestamp` hold the helpers.
- `Scenarios` holds the step and scenario data.
- `Browser` holds the oracle's answers.
- `SelectorRepair`, `Validation` and `Execution` hold the two passes.

The step loop and the scenario loop of the validation pass take the step
classifier as a parameter. The pass itself always uses `CheckStep`. The
bookkeeping facts are proved for any classifier: the details only grow,
the kept steps are the passed ones, and each scenario has its own slice.
The facts that depend on how a step is judged name the property they
need, and `CheckStepJudges` shows that `CheckStep` has it.

Two behaviours of the code that a reader might not expect:

- **The skip list is matched case-sensitively on one side.** Only the URL
  is lower-cased before the domains are looked up in it. So a configured
  domain with a capital letter never matches
  (`Config.CapitalDomainNeverSkips`).
- **An `expect` step with a condition other than `toBeVisible` runs
  nothing.** Once a page is loaded, validation passes it without touching
  the page. Before any page is loaded it is a "No page loaded" warning,
  like every step other than `goto`. The execution pass records no code
  line for it.

Functions with no contract of their own are definitions. Their properties
are the lemmas about them, listed in the table:

- `Execution.Transcript`: `TranscriptAppend`, `TranscriptShape` and
  `TranscriptReadsBack`.
- `Execution.ReportDir`: `ExecutedReadsBack`.
- `Execution.ArtifactLines`: `ArtifactsReadBack` and `ArtifactLinesNoBreak`.
- `Validation.Bypass`: `ValidateWithMcp`.
- `UrlExtraction.UrlAt`: `FirstUrlFrom` and `ExtractUrl`.
- `Text.IsSpace`: `Strip`.
- `TextBlock.Render`: `RenderFour`, `RenderTwo` and `RenderReadsBack`.
- `Execution.ParseCodeLine`: `CodeLineReadsBack`.
- `Execution.Acts`: `CodeLine` and `AllPassed`.
- `Execution.PageValue` and `Execution.PageLines`: `PageStateReadsBack`.
- `Execution.BoolText`: `Formatted` and `ReadsWord`.
- `Validation.Loaded`: `CheckStep`.
- `UrlExtraction.SiteUrl`: `SiteUrlIsAddress` and `ExtractUrl`.
- `Timestamp.Dashed`: `FileStamp`.
- `Text.LowerChar`: `Lower`.

## Model

The searching and splitting members of `Text` (`Find`, `SplitOn`,
`FindAfter`, `FindNone`, `ContainsSlice`, `SplitOnJoin`) and the reader
lemmas of `TextBlock` belong to the reader side: the code only writes the
text block, and these rows cite the lines that write it (main.py:595-611)
because they state how that block reads back.

| member | source | states |
|---|---|---|
| Text.Lower | main.py:142 | lower-casing keeps the length and maps every character through ASCII lower-casing |
| Text.LowerIdempotent | main.py:275 | lower-casing an already lower-cased string changes nothing |
| Text.CapitalNeverInLower | main.py:275 | a pattern holding an ASCII capital never occurs in a lower-cased string |
| Text.Strip | main.py:31 | `strip()` leaves no whitespace at either end and removes only whitespace, from the two ends |
| Text.StripUnique | main.py:31 | any trimmed string that the input pads with whitespace is the stripped input |
| Text.StripIdempotent | main.py:31 | stripping twice is stripping once |
| Text.TrailingCutIs | main.py:31 | the end of the stripped text is just after the last non-whitespace character |
| Text.StripLast | main.py:600 | stripping a text whose only outer whitespace is a final character drops just that character |
| Text.IndexOf | main.py:31 | the index found holds the separator, and none occurs before it |
| Text.Split | main.py:31 | `split(sep)` gives at least one part, no part holds the separator, and joining the parts gives the input back |
| Text.SplitFirst | main.py:89 | the first part of a split is the input up to its first separator |
| Text.SplitJoin | main.py:31 | splitting a join of separator-free parts gives back exactly those parts |
| Text.Find | main.py:595-611 | the index found is the first place the separator string occurs, or the end when it does not occur |
| Text.SplitOn | main.py:595-611 | splitting on a separator string gives at least one part, and joining the parts with it gives the input back |
| Text.FindAfter | main.py:595-611 | in a text that is a separator-free part, the separator and a rest, the separator is found right after the part |
| Text.FindNone | main.py:595-611 | a text without the separator has no match before its end |
| Text.ContainsSlice | main.py:595-611 | what a slice contains, the whole text contains |
| Text.SplitOnJoin | main.py:595-611 | splitting a join of separator-free parts gives back exactly those parts, for a separator that cannot overlap itself |
| Text.Without | main.py:379-381 | removing a set of characters never lengthens the string and leaves none of them |
| Text.WithoutCounts | main.py:379-381 | removal keeps every other character exactly as many times as it occurred |
| Text.WithoutMembership | main.py:379-381 | a character outside the removed set survives exactly when it was present |
| Text.WithoutWithout | main.py:379-381 | removing one set and then another is the same as removing their union |
| Text.WithoutIdentity | main.py:379-381 | removal changes nothing exactly when no character of the set occurs |
| Text.Delete | main.py:379-381 | `replace(c, "")` leaves no `c` and keeps every other character as many times as it occurred |
| Text.Replace | main.py:89 | `replace(c, d)` keeps the length and turns exactly the occurrences of `c` into `d` |
| Config.ParseFlag | main.py:30 | the flag is on when unset, and otherwise exactly when the value is some capitalisation of "true" |
| Config.Cleaned | main.py:31 | the cleaned pieces are non-empty, stripped and comma-free, and no more than the pieces |
| Config.CleanedMembers | main.py:31 | a domain is listed exactly when it is non-empty and some piece strips to it |
| Config.CleanedCovers | main.py:31 | every non-blank piece survives, stripped |
| Config.CleanedOne | main.py:31 | one piece gives its stripped text, or nothing when it is blank |
| Config.CleanedAppend | main.py:31 | pieces are cleaned one by one, in order: cleaning a concatenation concatenates the results |
| Config.ParseSkipDomains | main.py:31 | every parsed domain is non-empty, stripped and comma-free, and a string is a parsed domain exactly when some comma-separated piece of the raw value strips to it and it is non-empty |
| Config.CleanedFixed | main.py:31 | cleaning an already clean list changes nothing |
| Config.SkipDomainsRoundTrip | main.py:31 | parsing a clean list written out with commas gives the same list back |
| Config.ShouldSkip | main.py:270-278 | skip exactly when the URL is non-empty and some non-empty domain occurs in the lower-cased URL |
| Config.AnyIn | main.py:274-277 | the loop finds a domain exactly when some non-empty domain occurs in the lower-cased URL |
| Config.SkipIgnoresUrlCase | main.py:275 | two URLs that lower-case alike are skipped alike |
| Config.SkipBankExample | main.py:274-276 | the domain "bank" skips "https://MyBank.com/login" |
| Config.CapitalDomainNeverSkips | main.py:274-276 | a list whose every domain holds an ASCII capital never skips anything |
| Timestamp.FileStamp | main.py:89 | the stamp holds no colon, dot or plus; it is the input up to its first plus, with colons and dots turned into dashes |
| Timestamp.FileStampIdempotent | main.py:89 | a stamp is its own stamp |
| Timestamp.FileStampCutsOffset | main.py:89 | a time with a "+" offset stamps to the time alone, with colons and dots turned into dashes, whatever the offset |
| UrlExtraction.RunEnd | main.py:122 | the run after a match start ends at the first whitespace, or at the end of the text |
| UrlExtraction.RunEndIs | main.py:122 | any index that ends a whitespace-free run at the first whitespace is the end that `RunEnd` finds |
| UrlExtraction.FirstUrlFrom | main.py:122-126 | the scan finds the leftmost index where the pattern matches, or reports that none does |
| UrlExtraction.FirstSiteFrom | main.py:142-145 | the scan finds the first table key the lower-cased objective contains, or reports that none is contained |
| UrlExtraction.ExtractUrl | main.py:120-147 | the result is the leftmost match's maximal non-whitespace run; else the URL of the first key named; else the fallback |
| UrlExtraction.SchemeNotSpace | main.py:122 | the text matching the scheme holds no whitespace |
| UrlExtraction.KeysAreLetters | main.py:129-140 | every table key is lower-case ASCII letters |
| UrlExtraction.SiteUrlIsAddress | main.py:129-140 | a table URL is an https address with no whitespace |
| UrlExtraction.MatchIsAddress | main.py:122 | the text a match covers is an http(s) address with no whitespace |
| UrlExtraction.ExtractedIsUrl | main.py:120-147 | whatever the objective, the result is an http(s) address with no whitespace |
| UrlExtraction.FirstUrlIs | main.py:123-126 | a match with no match before it is what extraction returns |
| UrlExtraction.UrlBeatsSiteName | main.py:123-126 | "HTTP://Amazon" gives itself, capitals kept, not the amazon table URL |
| Scenarios.Retarget | main.py:391 | repair changes only the selector: the action and a fill's value are kept |
| SelectorRepair.Token | main.py:379-381 | the token is the selector without `[`, `]`, `'` and `=` |
| SelectorRepair.TokenKeeps | main.py:379-381 | every other character, the double quote included, stays in the token exactly when it is in the selector |
| SelectorRepair.TokenIdempotent | main.py:379-381 | a token is its own token, and a selector free of the four characters is its own token |
| SelectorRepair.Alternatives | main.py:377-382 | three alternatives, in order the exact `data-testid`, the `aria-label*=` and the `placeholder*=` attribute selectors, each its opener, then the token, then the closing `"]` |
| SelectorRepair.FramesHold | main.py:377-382 | each framed alternative is its opener, the token at the opener's end, and the closer, and nothing else |
| SelectorRepair.ParseAlternative | main.py:377-382 | an alternative read back is some opener, a token and the closer |
| SelectorRepair.OpenerOf | main.py:377-382 | the opener found is a prefix of the text and no earlier opener is |
| SelectorRepair.OpenerOfOwn | main.py:377-382 | an alternative's own opener is the one found, since the openers differ in their second character |
| SelectorRepair.AlternativeReadsBack | main.py:377-382 | alternative `k` reads back as opener `k` and the selector's token, so the three alternatives are told apart and the token is recovered |
| SelectorRepair.TryAlternatives | main.py:384-395 | the first visible alternative is taken, after probing exactly the ones before it; else none is taken, after probing all |
| SelectorRepair.FirstVisibleCons | main.py:384-395 | an alternative that is not visible is probed and passed over |
| SelectorRepair.Resolve | main.py:374-395 | a visible selector is kept with no other probe; a probe that raises is an error; a hidden one goes through the alternatives in order |
| SelectorRepair.ReplacedByAlternative | main.py:384-395 | a replacement is always one of the selector's alternatives |
| SelectorRepair.Unrepairable | main.py:384-397 | when no alternative is visible the selector is unresolved, after four probes |
| SelectorRepair.TestIdFirst | main.py:378-393 | a visible data-testid alternative wins without probing the other two |
| Validation.Perform | main.py:416-444 | the step's own action passes exactly when it completes, and fails with the exception text when it raises |
| Validation.Interact | main.py:371-444 | a click or fill leaves `current_url` alone and changes the step at most by retargeting it; on a visible selector it passes exactly when its action completes |
| Validation.CheckStep | main.py:342-444 | only a successful `goto` sets `current_url`; a step warns exactly when it is not a `goto` and no page is loaded; a `goto` passes as "Navigate to" the URL exactly when it loads; on a loaded page a visible click or fill and a `toBeVisible` check pass exactly when their action completes, another `expect` and an unknown action pass untouched; every non-pass has a reason |
| Validation.CheckReplaced | main.py:384-395 | on a loaded page, a selector resolved to an alternative makes the step act through that alternative |
| Validation.CheckStepJudges | main.py:342-444 | the step classifier moves `current_url` only on a `goto` that loads, warns of any other step met without a page and leaves it unchanged, and changes a step at most by retargeting it |
| Validation.CountsPartition | main.py:338-444 | the passed, failed and warning counts add up to the number of details |
| Validation.Record | main.py:340-443 | one step appends its detail and bumps the total by one |
| Validation.RecordTallies | main.py:340-443 | recording a detail bumps exactly the counter of its status, so every counter stays equal to its count of details |
| Validation.KeepPassed | main.py:357-434 | the kept steps are as many as the passed details |
| Validation.WalkSteps | main.py:338-444 | the loop adds one detail per step and visits every step |
| Validation.WalkLast | main.py:338-444 | the last step's classification, made in the state the steps before it leave, is appended to the details, the visited steps and, when it passed, the kept steps |
| Validation.WalkOnto | main.py:338-444 | one more step on the end of a walk is classified in the state the walk leaves, and only appends |
| Validation.WalkTallies | main.py:338-444 | the loop keeps every counter equal to its count of details |
| Validation.WalkExtends | main.py:338-444 | the loop only appends to the details it starts from |
| Validation.WalkKeepsPassed | main.py:357-434 | `validated_steps` is exactly the passed steps, in order, each as repaired |
| Validation.WalkRetargets | main.py:391 | with a classifier that only retargets, as `CheckStep` does, the loop changes each step at most by aiming it at one of its selector's alternatives |
| Validation.WalkAt | main.py:338-444 | step `k`'s detail is its classification in the state the steps before it leave |
| Validation.NoNavigationNoPage | main.py:335-346 | with no successful `goto`, `current_url` stays unset (for a classifier that navigates as `CheckStep` does) |
| Validation.NoPageWarning | main.py:360-369 | a non-`goto` step before any successful `goto` is a "No page loaded" warning and is not changed (for a classifier that navigates and warns as `CheckStep` does) |
| Validation.WalkShift | main.py:334-335 | a scenario's walk does not depend on the counters carried in from earlier scenarios |
| Validation.RepairedStep | main.py:374-434 | the first visible alternative replaces the selector, and the step then passes exactly when its action completes |
| Validation.SelectorNotFound | main.py:396-405 | an unrepairable selector fails the step with "Selector not found: " and the selector |
| Validation.SelectorErrorStep | main.py:406-414 | a probe that raises fails the step with "Selector error: " and the message |
| Validation.VisibleChecked | main.py:421-434 | on a loaded page, a `toBeVisible` check whose wait completes passes unchanged |
| Validation.NavigateFirst | main.py:343-356 | a first `goto` that loads gives one pass, loads the page and is kept |
| Validation.NavigateThenMissing | main.py:343-405 | a loading `goto` then an unrepairable fill gives one pass, one failure, a loaded page, and only the `goto` kept |
| Validation.NavigateFillExpect | main.py:343-434 | adding a visibility check that holds gives three steps, two passed and one failed, with the fill left out of the kept steps |
| Validation.WalkScenarios | main.py:332-448 | one validated and one repaired copy per scenario, and one detail per step of every scenario |
| Validation.SweepTallies | main.py:332-448 | the scenario loop keeps every counter equal to its count of details |
| Validation.SweepLastAlone | main.py:332-448 | the last scenario appends the details, kept steps and repaired steps it gives when walked alone from no page and no counters |
| Validation.FlattenSlice | main.py:332-448 | each part of a flattened list sits right after the parts before it |
| Validation.SweepDetails | main.py:332-448 | the shared details are the details of each scenario walked alone, in scenario order |
| Validation.EachScenarioDetails | main.py:332-448 | scenario `i`'s details are its own slice of the shared list, as if it were walked alone from no page |
| Validation.EachScenarioSteps | main.py:446-448 | scenario `i`'s validated copy keeps its name and description with its passed steps, and the caller's copy holds its repaired steps |
| Validation.SweepScenario | main.py:332-448 | scenario `i` keeps its name and description in both copies, its repaired steps are its steps each at most retargeted, and its validated steps are the repaired steps whose details in its slice passed |
| Validation.ValidateWithMcp | main.py:281-504 | the two bypasses give their fixed reasons and unchanged scenarios; the pass completes exactly when enabled, not skipped and launched; then the counters are tallied over every step; a launch that raises returns the caller's scenarios unvalidated, with the exception text as both reasons and the status Aborted (the code's "failed") |
| Validation.CompletedPass | main.py:332-448 | in a completed pass, each returned scenario is its caller's scenario with the passed steps of its own slice of the details, and the caller's copy is its steps at most retargeted |
| Validation.CountersBalance | main.py:338-444 | in a completed pass, the total is passed plus failed plus warnings |
| Execution.CodeLine | main.py:544-563 | a step records a line exactly when it is a `goto`, `fill`, `click` or `toBeVisible` check |
| Execution.CodeLineShape | main.py:544-563 | a recorded line opens with "await page." and ends with ";\n"; a `goto` line carries the URL after `goto('`, a selector line carries the selector after `locator('`, and a fill line carries the value after the selector and `.fill('` |
| Execution.CodeLineReadsBack | main.py:544-563 | a recorded line reads back as its step, a fill with no value as a fill of "" |
| Execution.TranscriptAppend | main.py:544-563 | the transcript of two step lists one after the other is their transcripts one after the other |
| Execution.TranscriptShape | main.py:544-563 | the transcript is empty exactly when no step acts, and otherwise begins with "a" and ends with ";\n" |
| Execution.TranscriptReadsBack | main.py:544-563 | reading the transcript line by line gives back the acting steps, in order |
| Execution.StrippedTranscript | main.py:600 | stripping a non-empty transcript drops only its last newline |
| Execution.AllPassed | main.py:523-568 | the result is true exactly when no acting step raised |
| Execution.PageStateReadsBack | main.py:579-605 | the three page-state lines read back as the URL, the title and the snapshot note, or as "N/A" three times when the state could not be read |
| Execution.PageLinesNoBreak | main.py:602-605 | the page-state lines never hold a section break |
| Execution.Artifacts | main.py:535-577 | three artifacts, keyed screenshot, trace and screenshot_final in that order, each a non-empty one-line file name under the report's `artifacts` folder |
| Execution.ArtifactsApart | main.py:535-577 | the three artifact paths differ |
| Execution.ArtifactsOneLine | main.py:535-577 | under a one-line report folder, every artifact key and path is one line and no key holds a colon |
| Execution.ArtifactsReadBack | main.py:609-610 | the artifact lines read back as the artifacts, in order |
| Execution.ArtifactLinesNoBreak | main.py:609-610 | the artifact lines never hold a section break |
| Execution.Formatted | main.py:595-611 | the text block opens with the result header and then "True" or "False", and is the four sections Result, Ran Playwright code, Page state and Artifacts written out |
| Execution.FormattedReadsBack | main.py:595-611 | the text block reads back as its four sections: the result word, the stripped code, the page-state values and the artifacts |
| Execution.RunSectionsReadable | main.py:595-611 | each of the four sections reads back unchanged |
| Execution.ErrorText | main.py:651 | the error text block opens with the result header and then "false", and is the Result and Error sections written out |
| Execution.ErrorReadsBack | main.py:651 | the error text block reads back as "false" and the error message |
| Execution.ReadsWord | main.py:596-597 | a reader of the text block takes "True" as a pass and "False" or "false" as a failure |
| Execution.Execute | main.py:507-652 | an error outside the steps gives the error result; otherwise the report counts every step, records the outcome-independent transcript, and completes exactly when no acting step raised; its text block is the four sections written from that same status, code, page state and artifacts |
| Execution.ResultReadsBack | main.py:596-651 | the result read back from the text block is true exactly when the report says completed |
| Execution.ExecutedReadsBack | main.py:507-652 | a run's text block reads back as four sections: the stripped transcript, the page state and the artifacts of the report |
| Execution.NothingToRun | main.py:560-568 | a scenario with no acting step completes with an empty transcript |
| TextBlock.RenderTwo | main.py:651 | two sections written out are the opening heading, the first body, the break and heading line, and the second body |
| TextBlock.RenderFour | main.py:595-611 | four sections written out are the opening heading, then each body followed by the next break and heading line |
| TextBlock.ReadSection | main.py:595-611 | a section read back has a one-line heading |
| TextBlock.ReadSectionText | main.py:595-611 | a section with a one-line heading reads back as itself |
| TextBlock.RenderReadsBack | main.py:595-611 | sections whose text holds no section break read back from the rendered block exactly |
| TextBlock.NoBreakAfterLine | main.py:595-611 | a line, a newline and a body that neither starts with a newline nor holds a break hold no break |
| TextBlock.HeadedReadable | main.py:595-611 | a one-line heading over such a body is a section that reads back |
| TextBlock.NoBreakInLine | main.py:595-611 | a single line holds no section break |

## Left out

- FastAPI app, CORS and the route handlers: HTTP plumbing.
- The Gemini call and its prompt: a network client.
- Playwright itself: every browser call is an oracle input. `StepPage` answers the visibility probes and tells how a step's action ends. An `Outcome` tells how the launch, or an execution step, ends.
- Timeouts, fixed sleeps and closing the browser: these are resource handling, not logic.
- Durations, the `executionTime` fields and the per-detail timestamps: they depend on the clock.
- The wall-clock reading behind the report folder's name is the input `clock`.
- Reading the environment at start-up and the `exit(1)` checks. The two settings are parsed from their raw `Option<string>` values.
- The constant `databaseUpdates`, `reportGeneration` and `authoring` lists, and `mcpResult`, which repeats the metrics.
- Files and folders: creating them, writing the text block and the JSON report, and the listing endpoints. The model builds the paths and the contents, not the writes.
- Validation.ValidateWithMcp: an exception inside the pass is modelled only at browser launch (`launch`). In the code, an exception after some steps have run still returns the caller's list, with any selectors repaired up to then. The model returns it unchanged.
- Validation.ValidateWithMcp: the error report's status is the string `"failed"` in the code. The model calls it `Aborted`, so that it does not clash with the step status `Failed`.
- Execution.Execute: every exception outside the step loop is one input, `passError`. This covers creating the folders, launching, screenshots, the trace and the file writes. The artifacts of a run that fails part-way are not modelled.
- Execution.Execute: the report path is `reportsDir + "/report-" + stamp` as given. `Path` normalisation (a leading "./", doubled or trailing slashes) is not modelled.
- Text.Lower: lower-casing is ASCII only. Python's `str.lower()` also maps non-ASCII characters, some of them to ASCII letters (the Kelvin sign to "k") or to two characters. This affects `UrlExtraction.ExtractUrl`'s site search and `Config.ShouldSkip` only for such characters.
- The regular expression is modelled by its meaning, not by Python's matcher. Its `\s` is the fixed whitespace set of `Text.IsSpace`. Ignoring case follows Python's rule for the pattern's letters, including the long s matching "s".
- A step without an `action`, `url` or `selector` key: the step datatype is closed, so the `KeyError` paths cannot arise.
- `step.get('value', '')` on a value that is JSON `null` would print "None". The model treats a missing value and `null` alike, as absent.
- The unused `test_name` parameter of the execution pass.
- Execution.FormattedReadsBack: the text block escapes nothing. The model promises that it reads back only under three conditions: the code holds no blank line followed by "### ", the URL and title are one line each, and every artifact key and path is one line with no colon in the key. Outside these conditions a reader cannot tell where a section ends.
- Execution.ExecutedReadsBack: the same holds for a whole run. The transcript must hold no section break, and the report folder must be one line.
- Execution.ErrorReadsBack: an error message reads back only when it holds no section break and does not start with a newline. A leading newline would join the "Error" heading line.
- Execution.CodeLineReadsBack: a selector holding a single quote is written into the code line unescaped, so it is read back only when it holds none. A fill with no value is recorded, and read back, as a fill of "".
- Execution.TranscriptReadsBack: the transcript reads back only when no URL, selector or value holds a newline and no selector holds a single quote (`PlainStep`). Steps that record no line are not recovered.
