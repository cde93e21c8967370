# Verified models of the experiment server and its web client

Dafny models of the parts of this repository whose correctness is not visible
from reading one function, with proofs of what they are for. `dafny verify
dfyconfig.toml` checks everything; there are no assumptions.

The modules, by subject:

- **The bidirectional pager.** `ArrayPaging` (the list server), `PagingBlock` (which
  page buttons exist), `PagerMachine` (the component and its unanswered requests as
  a state machine), `PagerInvariant` (what every event keeps), `PagerTheorems`
  (whole runs), `PageableComponent` (the component as an object, refining the
  machine), `ExhaustivePaging` (fetching all pages from the same server), over `Runs`.
- **Experiment mathematics.** `LinearConstraints` (constraints compiled to
  halfspaces and to the optimizer's weights), `Conditionals` (parsing, and coverage
  decided by counting), `UnconditionedExperiments` (conditionals removed, and the
  value array read from the result), `BestObservations`.
- **Translations and round trips.** `PagingMarkers` (unpadded URL-safe base64),
  `ConditionEditor` (edit keys compiled to names), `ExperimentUi` (enabled
  parameters, submitted values), `LoginStates` (a stack of sessions), `CondensedJson`.
- **Smaller machines.** `Polling`, `DataSources`, and `Authorizations` (from an API
  token to an authorization, and its cached rows).

A function that only computes is paired with lemmas that say what it means. Where the
source changes state, a class or a method with loops does the same work and is proved
equal to the function.

Properties that the source has only in part, with the exact line between:

- A quiet pager shows its selected page if and only if the list has that page. The browser's
  Back and Forward buttons select any page number the address bar ever held
  (`web/js/pages/projects/page.js:95-99`, `web/js/pages/experiment/list/list.js:102-107`). A page past
  the end is corrected to page 0 if and only if, at the time of the click, a response was
  still going to be stored or the new frontier asks for another page; otherwise it stays
  selected with nothing to show (`PagerTheorems.NavigationPastTheEnd`, with a run that gets there in
  `PagerTheorems.BackToMissingPage`).
- `exhaustivelyPage` over a list ends if and only if the page size is not zero, or the
  list is empty and read downwards (`ExhaustivePaging.EndsExactly`).
- A text is the paging marker of what it decodes to if and only if it is in the URL-safe
  alphabet, its length is not 1 modulo 4, and the bits its last character does not use are
  zero (`PagingMarkers.DecodedTextIsMarker`). Other texts decode too: Python's decoder reads the standard
  alphabet as well and skips foreign characters (`PagingMarkers.StandardSpellingDecodes`,
  `PagingMarkers.ForeignCharacterSkipped`).
- A request's paging marker that is not a marker is answered as a bad parameter, except that text
  outside ASCII raises a plain ValueError, which is not caught (`PagingMarkers.NotAsciiEscapes`).
- The server accepts the conditionals and conditions of a new experiment if and only if names
  are distinct, every conditional has two or more values, and no condition was left without a
  value. The form leaves one so when the last value it accepts is removed from its conditional
  (`ConditionEditor.SessionAccepted`, `ConditionEditor.RemovingValueEmpties`).
- The comment at `web/js/net/poller.js:50` promises that a paused poller starts no poll. However long
  it stays paused it starts at most one, and it starts one if and only if a throttled call
  that was pending at the pause fires while the poller runs and no poll is out
  (`Polling.PausedStretch`, with a run in `Polling.PausedPollerPolls`).

The comment in `constraints.py` that asks whether the bounds are correct as halfspaces is
answered: they are (`LinearConstraints.BoundRowsMeanBounds`).

## Model

| member | source | states |
|---|---|---|
| ArrayPaging.ServesNextWindow | web/js/net/list.js:16-47 | In both directions the server reads the next window of one stream (the list, or its reverse), and the marker it returns resumes exactly where that window ends |
| ArrayPaging.FailsOnlyOnNegativeLimit | web/js/net/list.js:18-22 | Whatever markers a caller sends, the only error is a negative limit |
| PagingBlock.InteriorButtons | web/js/pagination/paging-block.js:124-139 | The branches on the two ellipsis flags compute one window: all of at most seven pages, else a block around the current page pushed inside the list |
| PagingBlock.ButtonsStayInRange | web/js/pagination/paging-block.js:15-25 | Whatever page is selected no numbered button leads outside the list, and an existing page always is a numbered, first or last button |
| PagerInvariant.NextWindowIsNextPage | web/js/pagination/make-pageable.js:152-180 | The limit and cursor of the next request select exactly the next missing page, including the short last page that is fetched first when paging backwards |
| PagerInvariant.StoredPageIsSlice | web/js/pagination/make-pageable.js:182-195 | What is stored for the next request, reversed when paging backwards, is the plain slice of the displayed list for its index |
| PagerInvariant.StoredPageMovesBoundary | web/js/pagination/make-pageable.js:196-222 | Storing the next page keeps the cached indices contiguous, moves the cursor to the new edge, keeps the counts right, and stops paging with the last page |
| PagerInvariant.IgnoredDelivery | web/js/pagination/make-pageable.js:182-187 | Helper: the guard of `_receivePage` read as a step, a refused response leaves everything but the network alone |
| PagerInvariant.StoredDelivery | web/js/pagination/make-pageable.js:182-197 | A current response for a page that is not cached is stored while mounted, and nothing cached changes |
| PagerInvariant.DeliverKeepsInv | web/js/pagination/make-pageable.js:182-227 | Any outstanding response, delivered in any order, keeps the whole invariant |
| PagerInvariant.ReverseKeepsInv | web/js/pagination/make-pageable.js:281-313 | Starting again from the other end with the known counts keeps the invariant and makes every outstanding request stale |
| PagerInvariant.NavigateKeepsInv | web/js/pagination/make-pageable.js:229-249 | Moving to any page number at all, also before the pages are counted, keeps the invariant |
| PagerInvariant.RestartKeepsInv | web/js/pagination/make-pageable.js:109-127 | A reload, refresh or re-sort from any state reached establishes the invariant under a new nonce |
| PagerInvariant.NextKeepsInv | web/js/pagination/make-pageable.js:133-313 | Every event keeps: contiguous cache agreeing with slicing, cursor on its edge, every request in range and current ones for a cached or the next page, and a wanted page always has its request out |
| PagerTheorems.CachedPageIsSlice | web/js/pagination/make-pageable.js:152-227 | In every reachable state each cached page i is entries i*size to (i+1)*size of the list in display order, however it was loaded |
| PagerTheorems.DirectionNeverShows | web/js/pagination/make-pageable.js:278-313 | Two reachable states with the same sort order never show different contents for a page, whatever directions and reloads led to them |
| PagerTheorems.CacheIsBlockAtOneEnd | web/js/pagination/make-pageable.js:133-227 | Over every interleaving the cache is a prefix (forwards) or a suffix (backwards), the cursor of the next request sits on its edge, and a current request is ignored or extends it |
| PagerTheorems.RequestsStayInRange | web/js/pagination/make-pageable.js:152-180 | No request, current or stale, asks for a page the list has not (page 0 of an empty list excepted), for more than a page, or with a marker against its direction |
| PagerTheorems.DeliveriesTerminate | web/js/pagination/make-pageable.js:133-150 | Without further user events at most missing pages plus outstanding requests responses can arrive |
| PagerTheorems.FrontierCoversWindow | web/js/pagination/make-pageable.js:258-276 | In both directions the farthest page reaches every numbered button's page, whatever page is selected, and an existing selected page with its neighbours |
| PagerTheorems.FrontierIsExact | web/js/pagination/make-pageable.js:258-276 | The farthest page is the last numbered button on the side paging goes to, or the end of the list where no ellipsis hides it, and no farther |
| PagerTheorems.QuietPagerShowsEverything | web/js/pagination/make-pageable.js:258-323 | With nothing outstanding every numbered button's page is cached, the selected page is cached exactly when the list has it, and Next and Previous are on exactly when they lead from it to another page |
| PagerTheorems.PagerSettlesOnPage | web/js/pagination/make-pageable.js:133-249 | From every reachable state, in whatever order the answers come, the pager comes to rest on the selected page, or on page 0 exactly if that page is past the end and a response is still to be stored, and shows its slice if the list has it |
| PagerTheorems.SomeScheduleSettles | web/js/pagination/make-pageable.js:133-227 | From every state with the invariant some order of answers leaves nothing outstanding |
| PagerTheorems.NavigationPastTheEnd | web/js/pages/projects/page.js:95-99 | A history button to a page the list has not is corrected to page 0 if and only if the page is not negative and a response was still to be stored or the new frontier wants a page; otherwise the pager stays there with nothing to show |
| PagerTheorems.BackToMissingPage | web/js/pages/experiment/list/list.js:102-107 | One page, opened at page 5: the answer selects page 0, and going back to page 5 strands the pager there |
| PagerTheorems.EventSelects | web/js/pagination/make-pageable.js:229-313 | Navigating selects the page and keeps order, direction and cache; reversing turns round and selects the far end; refreshing keeps page and order; reloading takes the page given or 0; re-sorting takes the order and page 0; all but navigating empty the cache |
| PagerTheorems.MountSelects | web/js/pagination/make-pageable.js:60-70 | Mounting selects the start page or 0, forwards and descending, and asks for one page |
| PagerTheorems.EventShows | web/js/pagination/make-pageable.js:109-313 | After each of these, in whatever order the answers come, the pager rests on the selected page if the list has it, on page 0 if it is past the end and was not navigated to, shows its slice in the event's order, and pages in the event's direction |
| PagerTheorems.EventAsks | web/js/pagination/make-pageable.js:131-150 | Starting again asks for one page, and navigating asks for the next one exactly if a page is missing and the selected page's frontier is not passed |
| PagerTheorems.DeliveryAsks | web/js/pagination/make-pageable.js:188-226 | A stored response asks for the next page under the same condition, and any other asks for nothing |
| PageableComponent.Pageable.constructor | web/js/pagination/make-pageable.js:60-92 | A new component holds the initial paging state of its start page |
| PageableComponent.Pageable.ComponentDidMount | web/js/pagination/make-pageable.js:67-70 | Mounting reloads from the start page and establishes the invariant |
| PageableComponent.Pageable.KickPaging | web/js/pagination/make-pageable.js:131-150 | The kicker sends the machine's next request exactly when it is current and wants more |
| PageableComponent.Pageable.FillPage | web/js/pagination/make-pageable.js:152-180 | One request goes out, the one the machine specifies, and nothing else changes |
| PageableComponent.Pageable.ReceivePage | web/js/pagination/make-pageable.js:182-227 | The object's handling of one response, also one that arrives after unmounting, is the machine's delivery step and keeps the invariant |
| PageableComponent.Pageable.NavigateToPage | web/js/pagination/make-pageable.js:229-249 | Navigation on the object, to any page number, is the machine's step and keeps the invariant |
| PageableComponent.Pageable.ComponentWillUnmount | web/js/pagination/make-pageable.js:72-74 | Unmounting is the machine's step and keeps the invariant |
| PageableComponent.Pageable.ReloadPages | web/js/pagination/make-pageable.js:109-117 | Reloading the object is the machine's step and keeps the invariant |
| PageableComponent.Pageable.RefreshPage | web/js/pagination/make-pageable.js:119-127 | Refreshing keeps the current page, resets the rest, and keeps the invariant |
| PageableComponent.Pageable.SetSortAscending | web/js/pagination/make-pageable.js:94-95 | Re-sorting and the reload it schedules are the machine's step and keep the invariant |
| PageableComponent.Pageable.ReversePaging | web/js/pagination/make-pageable.js:281-313 | Reversing the object is the machine's step and keeps the invariant |
| ExhaustivePaging.PagesArriveInOrder | web/js/net/paging.js:46-73 | After k responses the call has either collected exactly the first k pages of the stream with its marker behind them, or has reported the whole stream |
| ExhaustivePaging.ReportsWholeList | web/js/net/paging.js:29-73 | For every positive page size the call succeeds, only ever with the list (or its reverse when ascending, the extra empty page for marker 0 included) |
| ExhaustivePaging.AnswerDecides | web/js/net/paging.js:46-70 | Against any server, an uncancelled failure runs error and a page without a marker runs success with all that was collected, each for good, and otherwise the call goes on from the marker of its direction |
| ExhaustivePaging.FinishedStaysFinished | web/js/net/paging.js:46-70 | Helper: when every request is answered once, a call that has ended stays as it ended |
| ExhaustivePaging.ZeroPageSizeStalls | web/js/net/paging.js:51-55 | With page size zero (and a list or an ascending read) the same empty page is requested for ever |
| ExhaustivePaging.EndsExactly | web/js/net/paging.js:29-73 | The call ends if and only if the page size is not zero or the list is empty and read downwards |
| ExhaustivePaging.CancelledCallIsDropped | web/js/net/paging.js:19-27 | Against any server, once cancelled with a request out, neither success nor error ever runs |
| LinearConstraints.ParseConstraintsToHalfspaces | src/python/zigopt/experiment/constraints.py:70-106 | The filled matrix has one row per constraint and two per constrained parameter, and a point lies in all its halfspaces exactly when it passes every named constraint and bound |
| LinearConstraints.HalfspacesMeanConstraints | src/python/zigopt/handlers/validate/assignments.py:61-74 | The halfspaces mean what the check on reported assignments means, for every real point |
| LinearConstraints.BoundRowsMeanBounds | src/python/zigopt/experiment/constraints.py:96-104 | The two rows of a parameter hold exactly when its value is within its bounds |
| LinearConstraints.TermSumIsWeightedSum | src/python/zigopt/experiment/constraints.py:91-94 | The sum over a constraint's terms equals the dot product in parameter order, for distinct known names |
| LinearConstraints.ConstrainedColumns | src/python/zigopt/experiment/constraints.py:78-80 | Exactly the parameters that some term names get a column, each once |
| LinearConstraints.ColumnsInOrder | src/python/zigopt/experiment/constraints.py:78-80 | The columns keep the order of the parameters |
| LinearConstraints.ParseExperimentConstraintsToFuncList | src/python/zigopt/experiment/constraints.py:29-60 | Fails exactly on the first constraint that weighs a categorical parameter; otherwise lists signed weights, right-hand side and the type of the last parameter that some term names, or none |
| LinearConstraints.LastKindIsLastNamed | src/python/zigopt/experiment/constraints.py:39-46 | That type is of a parameter which a term names and no later one is named, and there is none exactly if no parameter is named |
| LinearConstraints.WeighsCategoricalIs | src/python/zigopt/experiment/constraints.py:40-48 | A constraint is refused exactly if some term names a categorical parameter |
| LinearConstraints.WeightsMeanConstraint | src/python/zigopt/experiment/constraints.py:50-60 | Weights times point at least the right-hand side is the named constraint again |
| LinearConstraints.RowNegatesWeights | src/python/zigopt/experiment/constraints.py:85-94 | Column by column a halfspace row is the negated weight vector on constrained parameters, and the other weights are zero |
| Conditionals.SetConditionalValuesFromJson | src/python/zigopt/conditionals/from_json.py:40-61 | Accepts exactly two or more distinct values, numbers them from one, and reports a repeated, missing or single value as such |
| Conditionals.SetExperimentConditionalsListFromJson | src/python/zigopt/conditionals/from_json.py:11-28 | Accepts exactly lists of acceptable conditionals with distinct names, and keeps their order |
| Conditionals.SetParameterConditionsFromJson | src/python/zigopt/parameters/from_json.py:282-316 | Accepts exactly conditions on existing conditionals with at least one, and only existing, values, given as a list or as one name, each replaced by its enum index |
| Conditionals.OneNameIsAList | src/python/zigopt/parameters/from_json.py:303-307 | One name is as good as a list of it unless it is empty, and an empty name or list is refused |
| Conditionals.ConditionalsParsed | src/python/zigopt/conditionals/from_json.py:47-61 | Parsed conditionals have distinct names, the j-th value has enum index j, and the indexes are 1 to n, each once |
| Conditionals.ConditionsParsed | src/python/zigopt/parameters/from_json.py:294-316 | Parsed conditions name conditionals at most once and only list their enum indexes |
| Conditionals.ContributedIffSatisfied | src/python/zigopt/handlers/validate/assignments.py:52-58 | The product a parameter contributes is exactly the set of choices under which the assignment check accepts it |
| Conditionals.ProductSize | src/python/zigopt/conditionals/util.py:55 | The product of the value counts is the number of distinct choices |
| Conditionals.CountingDecidesCoverage | src/python/zigopt/conditionals/util.py:56-68 | The collected set reaches the counted size exactly when every choice is accepted by some parameter |
| Conditionals.CheckAllConditionalValuesSatisfied | src/python/zigopt/conditionals/util.py:54-69 | The check passes if and only if every combination of conditional values satisfies the conditions of at least one parameter |
| UnconditionedExperiments.ConvertToUnconditionedExperiment | src/python/zigopt/conditionals/util.py:29-51 | Conditioned parameters without a nonzero replacement get their last category, last grid value or upper bound, all else is kept, and the conditionals follow as categorical parameters; it fails exactly when a needed category is missing |
| UnconditionedExperiments.MakeExperimentAssignmentValueArray | src/python/zigopt/assignments/model.py:17-35 | The given or a new array lists each parameter's assigned value or replacement in order, log-transformed ones through their logarithm on the log scale, and a missing value is reported exactly when some parameter has neither |
| UnconditionedExperiments.UnconditionedValuesAreTotal | src/python/zigopt/conditionals/util.py:29-51 | After the conversion an assignment of all conditionals and unconditional parameters misses no value, in whatever order and selection the parameters are kept: assigned values stay, the rest get their replacement or stand-in |
| UnconditionedExperiments.ReadUnconditioned | src/python/zigopt/assignments/model.py:17-35 | Converting, arranging and reading, into a given or a new array and on either scale, never reports a missing value, and each cell holds the stated value, through its logarithm if the parameter is log-transformed and the scale is |
| UnconditionedExperiments.ExtractArrayForComputationFromAssignments | src/python/zigopt/assignments/model.py:38-39 | The supplied row is filled on the log scale, or a missing value is reported exactly when there is one |
| BestObservations.GetAllMeasurementsForMaximization | src/python/zigopt/data/model.py:19-24 | Flips the sign exactly at the positions of minimized metrics, and fails exactly when such a position has no measurement |
| BestObservations.SignFollowsMetric | src/python/zigopt/data/model.py:31-35 | Within the thresholds every metric has a number, and it is negated exactly when that very metric is minimized |
| BestObservations.OnlyValueIsOnlyMetrics | src/python/zigopt/data/model.py:10-17 | With one metric that has a name the only value is its value, whatever it is called; with several the values keep their names |
| BestObservations.MaxOption | src/python/zigopt/common/lists.py:129-142 | Scanning forwards with strict comparison finds the first of the greatest |
| BestObservations.FirstMaxIsFirst | src/python/zigopt/common/lists.py:129-142 | That element is at least every other and strictly greater than every earlier one |
| BestObservations.SortDescends | src/python/zigopt/experiment/best.py:75 | The sort is a permutation in descending order |
| BestObservations.SortKeepsTies | src/python/zigopt/experiment/best.py:75 | The sort keeps observations of equal value in their order |
| BestObservations.MultiMetricBest | src/python/zigopt/experiment/best.py:67-76 | The result descends by score, keeps those of equal score in their order, and holds, as often as they are given, exactly the observations that did not fail and whose value of every metric is not worse than its threshold |
| BestObservations.RankingIsUnique | src/python/zigopt/experiment/best.py:75 | There is only one such list |
| BestObservations.SingleMetricBest | src/python/zigopt/experiment/best.py:62-65 | The result did not fail, has the cost, and no metric's threshold is better than its value; there is none exactly if no observation is so; among them it is the first maximum |
| BestObservations.CandidatesQualify | src/python/zigopt/observation/model.py:116-129 | A candidate is an observation that did not fail, has the cost asked for, and has for every metric a value that its threshold, if any, does not better |
| BestObservations.EligibleQualifies | src/python/zigopt/observation/model.py:116-129 | So is an observation in the ranking, for any cost |
| BestObservations.SingleBestHeadsRanking | src/python/zigopt/experiment/best.py:62-76 | The single best observation is the head of the sorted list over the same cost, ties and the empty case included |
| BestObservations.SingleBestIsFirstBest | src/python/zigopt/experiment/best.py:17-19 | In raw values it is the first of the least for a minimized metric and the first of the greatest for a maximized one |
| PagingMarkers.PaddingRestored | src/python/zigopt/api/paging.py:14-18 | A marker's length is never 1 modulo 4, and the padding put back is exactly the padding stripped (RFC 4648, section 3.2) |
| PagingMarkers.AlphabetOrder | src/python/zigopt/api/paging.py:21-23 | The alphabet is upper case, lower case, digits, minus, underscore, each in order (RFC 4648, section 5) |
| PagingMarkers.GroupIsOneNumber | src/python/zigopt/api/paging.py:21-23 | Three bytes and their four sextets are one number in base 256 and base 64 (RFC 4648, section 4) |
| PagingMarkers.MarkerRoundTrip | src/python/zigopt/api/paging.py:14-23 | Every byte string comes back from its marker |
| PagingMarkers.MarkersInjective | src/python/zigopt/api/paging.py:21-40 | No two byte strings share a marker, and only the empty one has the empty marker |
| PagingMarkers.DecodeUnpadded | src/python/zigopt/api/paging.py:14-18 | Text without padding decodes to the data characters of either alphabet in it, exactly when it is ASCII and the padding of its whole length fills up the last group of data characters; the two failures are told apart |
| PagingMarkers.DecodedTextIsMarker | src/python/zigopt/api/paging.py:14-23 | Of all texts, exactly those in the URL-safe alphabet, of a length that is not 1 modulo 4 and with zero unused bits are the marker of what they decode to |
| PagingMarkers.StandardSpellingDecodes | src/python/zigopt/api/paging.py:18 | A marker in the standard alphabet still decodes to its bytes, and is a marker only if the spellings agree |
| PagingMarkers.ForeignCharacterSkipped | src/python/zigopt/api/paging.py:14-18 | After whole groups a foreign character is skipped although it makes the length 1 modulo 4 |
| PagingMarkers.PagingMarkerRoundTrip | src/python/zigopt/api/paging.py:26-40 | Every marker message that is sent out comes back, and only one of no bytes fails the assertion |
| PagingMarkers.NotAsciiEscapes | src/python/zigopt/api/paging.py:26-34 | The error that is not turned into a bad parameter is raised exactly for text that is not ASCII |
| ConditionEditor.ApplyKeepsInv | web/js/experiment/editor.js:514-597 | Every edit the form offers keeps each condition on an existing conditional and within its values |
| ConditionEditor.ChangeKeepsInv | web/js/experiment/editor.js:528-565 | Changing a conditional drops the values it lost from every condition and keeps all references valid |
| ConditionEditor.DropKeepsInv | web/js/experiment/editor.js:567-597 | Removing a conditional removes its conditions and no reference is left dangling |
| ConditionEditor.WithConditionRefers | web/js/experiment/conditionals/input.js:187-203 | Adding a value to a condition keeps one condition per conditional and valid references |
| ConditionEditor.WithConditionAccepts | web/js/experiment/conditionals/input.js:187-203 | Afterwards exactly what was accepted before and the added value are accepted |
| ConditionEditor.WithoutConditionAccepts | web/js/experiment/conditionals/input.js:205-231 | Afterwards exactly what was accepted before without the removed value is accepted, and a condition goes exactly with its last value |
| ConditionEditor.EnabledOnEvery | web/js/experiment/ui.js:33-55 | A parameter is enabled exactly if on every conditional it has no condition or accepts what is chosen |
| ConditionEditor.AddConditionEffect | web/js/experiment/conditionals/input.js:187-203 | On the form, only the addressed parameter changes and only on that conditional, where it becomes enabled under the added value besides those it accepted |
| ConditionEditor.RemoveConditionEffect | web/js/experiment/conditionals/input.js:205-231 | On the form, only the addressed parameter changes and only on that conditional, where it stays enabled under the other values it accepts, or under all if there is no other |
| ConditionEditor.RenameConditionalEffect | web/js/experiment/conditionals/input.js:153-157 | Renaming a conditional changes its name and nothing else |
| ConditionEditor.AddValueEffect | web/js/experiment/conditionals/input.js:159-165 | The conditional gains one value without a name under an unused key, and nothing else changes |
| ConditionEditor.RenameValueEffect | web/js/experiment/conditionals/input.js:176-185 | Renaming a value changes its name and nothing else |
| ConditionEditor.RemoveValueEffect | web/js/experiment/editor.js:528-565 | The value leaves its conditional and every condition, and nothing else does |
| ConditionEditor.RemoveConditionalEffect | web/js/experiment/editor.js:567-597 | The conditional and the conditions on it go, and nothing else does |
| ConditionEditor.AddConditionalEffect | web/js/experiment/editor.js:514-526 | A conditional without a name and with one value is added under unused keys, and nothing else changes |
| ConditionEditor.ParameterEffects | web/js/experiment/editor.js:201-239 | Parameters are added without conditions, removed whole, and renamed without touching anything else |
| ConditionEditor.WithoutConditionRefers | web/js/experiment/conditionals/input.js:205-231 | Removing a value from a condition, or the condition with its last value, keeps the references valid |
| ConditionEditor.SessionKeepsInv | web/js/experiment/editor.js:201-239 | Over every editing session all references stay valid |
| ConditionEditor.TranslatedEntries | web/js/experiment/editor.js:415-428 | Each condition is submitted under its conditional's name with the names of its values, and nothing else is |
| ConditionEditor.TranslationKeepsEnabled | web/js/experiment/editor.js:414-445 | Submission finds every conditional, and by name a parameter is enabled under exactly the choices that enable it by key |
| ConditionEditor.SessionSubmits | web/js/experiment/editor.js:415-424 | However a new experiment was edited, submission never misses a conditional |
| ConditionEditor.SessionKeepsMeaning | web/js/experiment/editor.js:414-445 | From a new experiment, after any edits that leave distinct names, what is submitted enables what the form enabled |
| ConditionEditor.AcceptedIffNoneEmpty | src/python/zigopt/parameters/from_json.py:294-316 | The server resolves everything submitted for a parameter if and only if none of its conditions is empty |
| ConditionEditor.ConditionalsAccepted | src/python/zigopt/conditionals/from_json.py:11-61 | The submitted conditionals are accepted if and only if their names are distinct and each has two or more distinct values |
| ConditionEditor.SessionAccepted | web/js/experiment/editor.js:414-445 | What a session submits, conditionals and conditions together, is accepted if and only if it ends with distinct names, two or more values for every conditional and no condition empty |
| ConditionEditor.RemovingValueEmpties | web/js/experiment/editor.js:542-556 | Removing a value leaves no condition empty if and only if the value was not there or every condition accepts another |
| ConditionEditor.OnlyRemovingValuesEmpties | web/js/experiment/conditionals/input.js:153-231 | No other edit leaves a condition empty |
| ExperimentUi.SanitizeKeepsEnabled | web/js/experiment/ui.js:33-55 | Sanitizing assignments enables and disables no parameter |
| ExperimentUi.SubmitsExactlyEnabled | web/js/experiment/ui.js:134-156 | A parameter's value is submitted exactly when it is enabled and defined, conditionals always, and nothing else |
| ExperimentUi.SubmittedValue | web/js/experiment/ui.js:141-152 | Of an enabled parameter, categorical text is submitted as it is, other text as the number it reads as or else as it is, blank text and missing values not at all |
| ExperimentUi.SanitizeIdempotent | web/js/experiment/ui.js:134-156 | Sanitizing twice is sanitizing once |
| LoginStates.LoginState.constructor | web/js/session/login_state.js:20-33 | A copy of a live state has an equal stack and shares no object with the original |
| LoginStates.LoginState.SetFrom | web/js/session/login_state.js:24-33 | All keys and a fresh copy of the other state's parents are taken over, and a falsy CSRF token leaves the current one |
| LoginStates.LoginState.PushParentState | web/js/session/set.js:9-27 | Pushes a copy of the live frame exactly when it is preserved, logged in and no guest's |
| LoginStates.PushesExactly | web/js/session/set.js:14-26 | A state is saved exactly if that is asked for, its API token is set and not empty, and it is no guest's |
| LoginStates.PopRestores | web/js/session/login_state.js:24-33 | Popping takes over the saved frame, keeping the live CSRF token if it saved none, and leaves the parents below |
| LoginStates.LoginState.SetLoginStateFromSession | web/js/session/set.js:29-39 | A session replaces four keys of the live frame above what was pushed |
| LoginStates.LoginState.SetLoginStateFromToken | web/js/session/set.js:41-53 | A token does the same, and pushes nothing if the current token is a guest's |
| LoginStates.LoginState.PopLoginState | web/js/session/pop.js:7-11 | Restores the saved frame, with the live CSRF token if it saved none, and its parents in fresh objects, and hands its token to the requestor; without a saved state nothing changes |
| LoginStates.LoginState.ToJsonRebuilds | web/js/session/login_state.js:39-46 | What any live state writes out rebuilds to an equal stack, at any depth |
| LoginStates.LoginState.FromJson | web/js/session/login_state.js:20-33 | Rebuilding from any JSON gives a live state with its frames, falsy CSRF tokens forgotten, in fresh objects |
| LoginStates.PopUndoesSession | web/js/session/set.js:29-39 | Opening a session over a preserved logged-in state sets the token, client, organization and user of the session, and popping it restores all seven keys |
| LoginStates.PopUndoesToken | web/js/session/set.js:41-53 | The same for a token that replaces one that is not a guest's |
| LoginStates.VisitPushesExactly | web/js/session/set.js:41-53 | A token link sets the token, client, organization and user of the token, and saves the state exactly when it is logged in with a token that is not a guest's; popping then restores all seven keys |
| LoginStates.GuestsNeverStack | web/js/session/set.js:19-26 | Over any sequence of guest links, with the guest flag read from the token that each replaces, at most the first saves a state |
| LoginStates.PopLeavesGuestLinks | web/js/session/set.js:9-53 | From a logged-in state that is no guest's, any number of guest links adds exactly one frame, and popping it returns the state from before the first |
| CondensedJson.CondenseCompacts | web/js/utils.js:117-130 | Nothing strictly inside the result is null, undefined or an empty container |
| CondensedJson.CondenseKeepsLeaves | web/js/utils.js:89-96 | Every scalar stays, in order and under its keys, and a value vanishes exactly when it holds none |
| CondensedJson.CompactIsFixed | web/js/utils.js:117-130 | The trees left alone are exactly the compact ones |
| CondensedJson.CondenseIdempotent | web/js/utils.js:117-130 | Condensing twice is condensing once |
| Polling.OnePollAtATime | web/js/net/poller.js:42-47 | In every run the number of outstanding polls is one if `isPolling` and zero otherwise |
| Polling.ReportsAreChanges | web/js/net/poller.js:79-88 | In every run the reports are exactly the changes in the accepted data: no two in a row are equal, across stops and restarts, and the last is the current data |
| Polling.AcceptsWhileStarted | web/js/net/poller.js:60-88 | In every run the poller is started or stopped by the last of start and stop, accepts exactly what polls bring while it is started, and reports exactly the changes in that |
| Polling.TrafficOf | web/js/net/poller.js:41-96 | For every event, when a poll goes out, when a call is deferred, and when the throttled call is made |
| Polling.NeverIdle | web/js/net/poller.js:41-96 | A started, visible poller always has a poll out or one on its way |
| Polling.PausedStretch | web/js/net/poller.js:42-58 | Over any stretch of events that stays paused at most one poll starts, and one starts if and only if a throttled call pending at the pause fires while the poller runs with no poll out |
| Polling.PausedPollerPolls | web/js/net/poller.js:50-58 | The run start, fire, success, deferred call, pause ends with a trailing throttled call that starts a poll while paused |
| Polling.AllChanges | web/js/net/poller.js:82-85 | Every accepted value is reported exactly when no two in a row are equal |
| Polling.Poller.PollSuccess | web/js/net/poller.js:79-88 | The object's step is the machine's, and onChange is called exactly when a report is added |
| Polling.Poller.PollError | web/js/net/poller.js:90-96 | The object's step is the machine's: the data stays, and the next poll is deferred |
| Polling.Poller.FireThrottled | web/js/net/poller.js:42-47 | The throttled body is the machine's step |
| Polling.Poller.SetPaused | web/js/net/poller.js:52-58 | The object's step is the machine's |
| DataSources.DataSource.GetData | web/js/net/source.js:28-42 | Before the data arrives a caller is queued and the fetch started once; after, it and whatever its callback registers are answered at once |
| DataSources.DataSource.Respond | web/js/net/source.js:44-59 | Every queued caller, and whatever callbacks register meanwhile, is called on the side of the outcome with its arguments, in order |
| DataSources.DataSource.Invoke | web/js/net/source.js:50 | A called callback's own registrations are answered before the next callback is called |
| DataSources.EachCallerOnce | web/js/net/source.js:28-59 | Of the calls promised, each caller gets exactly one if it gave a success callback and the fetch succeeded, or an error callback and it failed, and none otherwise |
| DataSources.DataSource.EveryCallerHeardOnce | web/js/net/source.js:28-59 | Of the calls the object has made once the data is there, each caller, registered from outside or from a callback, has had exactly one if it gave a callback for that side and none otherwise |
| DataSources.PromisedAppend | web/js/net/source.js:28-42 | The calls made do not depend on whether a caller registered before or after the data came |
| Authorizations.DispatchIsSound | src/python/zigopt/api/auth.py:177-241 | On a consistent database no assertion of dispatch or of a constructor fails, and the authorization is for the live token's own client, user and rows |
| Authorizations.LetInExactly | src/python/zigopt/api/auth.py:177-241 | Exactly live tokens of live users, and of live clients with no user or with an owner or a member who may read, are let in, and as user, owner, member, client, guest or signup link by the kind of token, membership and guest permission |
| Authorizations.ClientTokenIsComplete | src/python/zigopt/authentication/token.py:31-58 | A client token authenticates with all or none of user and membership, never finds its user missing, and a non-owner has a readable permission |
| Authorizations.ScopedClientVerdict | src/python/zigopt/authorization/user.py:64-75 | On the clients a scope covers the cached rows give the verdict the lookups would; on any other client nothing is allowed |
| Authorizations.ScopedArtifactVerdict | src/python/zigopt/authorization/user.py:88-102 | The same for artifacts |
| Authorizations.ScopedOrganizationVerdict | src/python/zigopt/authorization/user.py:77-86 | The same for organizations |
| Authorizations.ClientRule | src/python/zigopt/authorization/user.py:64-75 | On a live client whose organization admits the user, an owner may do anything and a member exactly what the permission's read, write and admin flags grant; nothing else is allowed |
| Authorizations.ArtifactRule | src/python/zigopt/authorization/user.py:88-102 | A member needs besides that the permission shows others' artifacts or the artifact is the member's own |
| Authorizations.OrganizationRule | src/python/zigopt/authorization/user.py:77-86 | Every member may read an organization and only owners may write or administer it |
| Authorizations.UnverifiedIsTold | src/python/zigopt/authorization/user.py:107-110 | The answer is that the email needs verification exactly for no member with an email still to verify |
| Authorizations.MemberRule | src/python/zigopt/authorization/member.py:49-88 | A token's member may do on the token's client exactly what the permission grants and shows, and nothing on another client |
| Authorizations.OwnerRule | src/python/zigopt/authorization/owner.py:40-69 | A token's owner may do anything on the live clients of the token's organization, and nothing elsewhere |
| Authorizations.ClientUserOrganizationRule | src/python/zigopt/authorization/member.py:61-66 | Of organizations, a token's member may read the client's and a token's owner may also change it |
| Authorizations.MemberDoubleCheck | src/python/zigopt/authorization/member.py:54-88 | A member's two artifact checks allow exactly what the one user check allows, on every client |
| Authorizations.OwnerDoubleCheck | src/python/zigopt/authorization/owner.py:40-69 | So do an owner's |

## Left out

- React rendering, JSX, URL updates (`pageUpdated`) and `lastSeenPage`, which nothing reads: no effect on what is cached. One `setState` and its callback are one step.
- Random nonces and edit keys are fresh identifiers.
- Failed page fetches: the component passes no error handler, so a request that is never answered is never repeated; settling assumes every request is answered. The list does not change while it is paged.
- ExhaustivePaging.FinishedStaysFinished: every request is answered once; a fetcher that called back twice would make the call report twice.
- A cursor passed in the `params` of `exhaustivelyPage`, which would override the marker of every request.
- Floating point: constraint coefficients, values and metrics are real numbers; not-a-number values do not occur.
- Constraints, conditionals and names are taken as validated where experiment creation validates them (distinct term names, known parameters, distinct names); the rules for the spelling of names are not part of the model.
- The number of conditional values is unbounded; `numpy.product` multiplies 64-bit integers and would wrap round.
- The sort of parameters, metrics and measurements by name: constraints, metrics and measurements come in that order; the value array is proved for every order. Its logarithm is a parameter of which nothing is assumed.
- A supplied value array has the length of the parameter list, as all callers give it.
- Pareto frontiers, clustering of multiple solutions, and interior-point search: foreign code.
- Python's base64 decoder is modelled from its own documented behaviour; its source is not part of this repository. How a marker message is written and read is a parameter.
- The update branch of `sanitizeExperiment`, and duplicate conditional names on submission, which the server refuses.
- How a browser reads a number is a parameter of `ExperimentUi`. The disabled branch of `validateAssignmentsInput` is not modelled.
- Tokens that the server refuses while their detail is looked up, which pops the state before a link is followed.
- A null and an undefined parent state are not told apart. `loggedOutCopy` is a plain copy of one key.
- `web/js/net/history.js`: its state is shared with the initial arguments after a null pop, so no whole-run invariant holds to prove.
- Poll callbacks that call back into the poller while they run, `startOnce`, and the timing of the throttle: a throttled call may fire at any time after it was made.
- A fetch that calls back more than once, or a fetch that asks its own source for data.
- Rate limits, logging of owners with explicit permissions, checks on users and tokens, and the client, guest and signup-link checks: single expressions over one row.
