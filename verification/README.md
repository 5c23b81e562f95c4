# Window manager arrangement engine, in Dafny

This project models the core of the `window_manager` browser extension. The
extension places browser windows on the connected displays according to user
configuration:

- **Actions** are placement rules. Each names a display and gives a column and
  a row as `Position`s: percent strings, pixel counts, or negative offsets
  from the far edge.
- **Matchers** are window predicates. They test the window type, a
  case-insensitive tab-url substring, and the tab-count range, and list the
  actions to apply.
- **The worker pass** does the following:
  - resolves every action to an update object;
  - prunes the matchers to the actions that have one;
  - merges, field by field, the updates of every action of every matching
    matcher;
  - orders the windows by matcher;
  - schedules one `chrome.windows.update` call per window, 5 ms apart.
- **Displays** hold the display records and the "did the layout really
  change" detector.
- **Sessions** hold the remembered window→action list.
- **Validation** contains `validateClass`, and **Preconditions** contains
  `checkNonUndefined`/`checkNonEmpty`.
- **Options** covers the options page's configuration checks and its display
  listing order.

Everything is pure functions over immutable datatypes. Host calls are returned
as values: the pass yields the list of scheduled update calls, the change
detector yields the new saved snapshot, and `remember`/`clear` yield the new
list.

The helpers `createUpdate` (of an action) and `mapDisplays` (the display-name
resolver) are called by the modelled code but are not part of this model.
They are function-typed parameters (`Worker.CreateUpdate`, and the
`mapDisplays` parameter of `Actions.MatchActionsToDisplay` and
`Worker.GetValidActions`). The storage reads are the `actions`/`matchers`
input lists.

Files: `results.dfy` (Option/Result), `js_values.dfy` (JavaScript values and
truthiness), `strings.dfy`, `sequences.dfy` (Set iteration order, `flat`,
`filter`, subsequences), and one file per source file: `position.dfy`,
`action.dfy`, `matcher.dfy`, `displays.dfy`, `session.dfy`, `worker.dfy`,
`validation.dfy`, `preconditions.dfy`, `options.dfy`.

Two points about the pass are easy to get wrong:

- Matchers are not exclusive. Every matching matcher contributes the updates
  of all its actions, and `worker.js` merges them field by field with
  `Object.assign`: for each key, the last matching (matcher, action) pair
  that sets it wins. `Worker.WindowUpdateLastSetterWins` states this rule.
  `Worker.LastCompleteActionDecides` gives the case where one action decides
  alone: the last action of the last matching matcher sets every key, as an
  action with both a column and a row does (`Worker.PreparedUpdateComplete`).
- The pass does not consult the session list. Remembered window→action
  associations are read only through `Session.mapWindowsToSavedActions`,
  which the pass does not call.

## Model

| member | source | states |
|---|---|---|
| `Positions.Calculate` | window_manager/classes/position.js:25-40 | When the size is not negative, both resolved offsets lie in [0, size], as the comment promises |
| `Positions.PositionFrom` | window_manager/classes/position.js:3-15 | A position built from JSON takes the given `start`/`end`, and otherwise the defaults 0 and '100%' |
| `Positions.DefaultPositionSpansAxis` | window_manager/classes/position.js:5-7 | The default position resolves to the whole axis {0, size} |
| `Positions.PercentResolves` | window_manager/classes/position.js:44-57 | A percent string p% with 0 ≤ p ≤ 100 resolves to floor(size·p/100) |
| `Positions.ParsePercentText` | window_manager/classes/position.js:51-52 | `parseFloat` reads the number in front of the '%' and ignores the sign itself |
| `Positions.PercentAboveHundredRejected` | window_manager/classes/position.js:53-55 | A percent above 100 is an error, whether it is the start or the end |
| `Positions.PercentOutOfRangeRejected` | window_manager/classes/position.js:51-55 | Any '%' string whose `parseFloat` value is below 0, above 100, or infinite is an error, whether it is the start or the end |
| `Positions.ParseNegativePercentText` | window_manager/classes/position.js:51-52 | `parseFloat` reads "-p%" as the negative number -p |
| `Positions.NegativePercentRejected` | window_manager/classes/position.js:53-55 | A negative percent "-p%" with p > 0 is an error in either place |
| `Positions.ParseDecimalPercentText` | window_manager/classes/position.js:51-52 | `parseFloat` reads "i.f%" as the exact decimal (i·10^|f| + f) / 10^|f| |
| `Positions.DigitsToNatAppend` | window_manager/classes/position.js:51-52 | The value of the digits of i followed by the fraction digits f is i·10^|f| + f, which is how the decimal is read |
| `Positions.PercentInRangeResolves` | window_manager/classes/position.js:51-56 | Any '%' string whose `parseFloat` value n/m lies in [0, 100] resolves to floor(size·n / (100·m)) |
| `Positions.DecimalPercentResolves` | window_manager/classes/position.js:44-57 | A decimal percent "i.f%" within [0, 100] resolves to the floor of its exact share of the axis, e.g. "12.5%" of 1000 is 125 |
| `Positions.NonPercentStringRejected` | window_manager/classes/position.js:48-50 | A string not ending in '%' is an error in either place; as the start it is the reported error |
| `Positions.OtherValuesRejected` | window_manager/classes/position.js:59-62 | undefined, null, booleans, objects, and a '%' string with no number are errors in either place |
| `Positions.NumberResolves` | window_manager/classes/position.js:63-66 | A number ≥ 0 resolves to min(size, v); a negative one resolves to max(0, size+v); all four regimes are stated |
| `Positions.PercentInRange` | window_manager/classes/position.js:53-56 | An accepted percent scales to a value in [0, size] |
| `Positions.CalculateIsPerValue` | window_manager/classes/position.js:28-40 | `calculate` succeeds iff start and end each resolve on their own, and the result is the pair of those values |
| `Positions.InvertedSpanAccepted` | window_manager/classes/position.js:28-40 | An end that precedes the start is returned as is: there is no start ≤ end check |
| `Actions.WithDisplay` | window_manager/classes/action.js:108-112 | The bound action carries every field of the source action and the matched display |
| `Actions.BoundIsWithDisplay` | window_manager/classes/action.js:108-112 | A bound action is determined by its action fields and display |
| `Actions.ActionFrom` | window_manager/classes/action.js:88-96 | The fields are copied; a given column/row becomes a Position that keeps a given start/end and takes the defaults 0 and '100%' for a missing one |
| `Actions.AxisPlacement` | window_manager/classes/action.js:125-132 | One axis succeeds iff the position is absent or resolves; when it succeeds, offset = origin + start and length = end − start |
| `Actions.PrepareUpdate` | window_manager/classes/action.js:117-149 | Succeeds iff every present axis resolves, and a column error is reported first. The update always has state 'normal' and focused true. An absent column leaves left/width unset, and likewise for the row and top/height. Otherwise left = workArea.left + start and width = end − start (no sign check), and likewise for top/height. left ∈ [workArea.left, workArea.left + width], and likewise for top |
| `Actions.LeftHalfExample` | window_manager/classes/action.js:117-149 | A left-half action on a 1920×1080 work area yields {left 0, top 0, width 960, height 1080, normal, focused} |
| `Actions.BindAll` | window_manager/classes/action.js:33 | Element i is bound iff its display is in the map; it then carries that display, and otherwise it is the original action |
| `Actions.MatchActionsToDisplay` | window_manager/classes/action.js:29-34 | Same length as the input; element i is the bound action when its display reference resolves, and otherwise the original action |
| `Actions.FilterWithDisplay` | window_manager/classes/action.js:40-43 | Keeps exactly the bound actions |
| `Actions.FilterWithDisplayAppend` | window_manager/classes/action.js:40-43 | Filtering distributes over concatenation, so the kept actions stay in input order |
| `Matchers.MatcherFrom` | window_manager/classes/matcher.js:17-23 | Fails iff `actions` is missing; otherwise the given keys override the defaults 0 and 1e9, and absent type and url constraints are empty |
| `Matchers.TabUrl` | window_manager/classes/matcher.js:31 | The tab's url unless it is absent or empty, in which case its pendingUrl |
| `Matchers.AnyTabContains` | window_manager/classes/matcher.js:30-31 | true iff some tab's lower-cased url contains the needle and every tab before it has a url. false iff every tab has a url and none contains it. It throws only if some tab has no url |
| `Matchers.Matches` | window_manager/classes/matcher.js:25-45 | true only if the type, url and count checks all pass. When no url is asked for, or every tab has one, the result is exactly their conjunction with an inclusive count range. A type mismatch is false before any throw. A throw needs a url constraint and a tab without a url |
| `Matchers.CatchAllMatcher` | window_manager/classes/matcher.js:1-45 | A matcher with only `actions` matches exactly the windows with at most 1e9 tabs |
| `Matchers.TighterMatchesFewer` | window_manager/classes/matcher.js:25-45 | Adding or tightening a constraint never enlarges the matched set |
| `Matchers.UrlCaseIgnored` | window_manager/classes/matcher.js:30-31 | The configured url's case does not matter |
| `Displays.FirstNative` | window_manager/classes/displays.js:39 | The index of the first native mode, or none when no mode is native |
| `Displays.ResolutionRoundTrip` | window_manager/classes/displays.js:39-40 | The resolution string "<W>x<H>" reads back as exactly W and H |
| `Displays.DisplayFrom` | window_manager/classes/displays.js:31-41 | Succeeds iff some mode is native. It copies the identity and geometry fields and renders the first native mode's width and height as the resolution text `<width>x<height>` (no leading zeros), which parses back to that width and height |
| `Displays.SizesEqualIsRectEquality` | window_manager/classes/displays.js:162-167 | Comparing height, left, top and width is equality of rectangles |
| `Displays.DisplaysChanged` | window_manager/classes/displays.js:60-104 | Changed iff the identity lists differ, or the sizes differ and no display has workArea == bounds. The saved snapshot becomes the current list exactly when the answer is true |
| `Displays.SecondCheckReportsNoChange` | window_manager/classes/displays.js:60-104 | A second call with the same current displays reports no change |
| `Displays.ShelfHiddenIsNoChange` | window_manager/classes/displays.js:97-99 | With equal identities, a display whose workArea equals its bounds means no change, and the saved list is kept |
| `Sessions.Without` | window_manager/classes/session.js:19 | Keeps exactly the entries of other windows, as a subsequence of the list |
| `Sessions.Remember` | window_manager/classes/session.js:17-21 | The new entry is last, and the other windows' entries are kept |
| `Sessions.Clear` | window_manager/classes/session.js:27-31 | Exactly the entries of other windows remain |
| `Sessions.WithoutEntries` | window_manager/classes/session.js:19 | No entry remains for the window, and every other window's entries are unchanged and in order |
| `Sessions.RememberEntries` | window_manager/classes/session.js:17-21 | Afterwards the window has exactly one entry, {actionId, windowId}, and other windows' entries are unchanged and in order |
| `Sessions.ClearEntries` | window_manager/classes/session.js:27-31 | `clear(w)` removes all entries of w and nothing else |
| `Sessions.ClearIdempotent` | window_manager/classes/session.js:27-31 | Clearing twice is clearing once |
| `Sessions.ClearAfterRemember` | window_manager/classes/session.js:17-31 | Clearing right after remembering gives the same list as clearing the original |
| `Sessions.RememberKeepsOnePerWindow` | window_manager/classes/session.js:17-31 | remember and clear keep at most one entry per window |
| `Sessions.ActionsById` | window_manager/classes/session.js:40 | The id map holds exactly the given ids; each maps to the last action with that id |
| `Sessions.MapWindowsToSavedActions` | window_manager/classes/session.js:39-45 | Maps exactly the windows whose remembered actionId is among the actions; each goes to the action named by its last entry with a known id |
| `Sessions.RememberThenMap` | window_manager/classes/session.js:17-45 | A window remembered with a known action id maps back to the action with that id |
| `Validation.RequiredKeys` | window_manager/utils/validation.js:50-56 | The required keys are the template's keys minus the optional keys |
| `Validation.UnexpectedKeys` | window_manager/utils/validation.js:29-32 | Empty iff every key of the checked object is in the template |
| `Validation.MissingValueKeys` | window_manager/utils/validation.js:23-27 | Empty iff no required key holds a falsy value other than 0 |
| `Validation.ValidateClass` | window_manager/utils/validation.js:7-43 | Succeeds iff keys ⊆ template, required ⊆ keys, and no required value is falsy-non-zero. On failure it reports exactly the missing, unexpected and missing-value keys |
| `Preconditions.CheckNonUndefined` | window_manager/utils/preconditions.js:7-15 | Fails exactly on undefined and null; otherwise returns the item unchanged, including 0 and '' |
| `Preconditions.CheckNonEmpty` | window_manager/utils/preconditions.js:23-28 | Returns the item iff it is truthy, so it fails on 0 and '' too |
| `Preconditions.NonEmptyIsStricter` | window_manager/utils/preconditions.js:7-28 | checkNonEmpty accepts less than checkNonUndefined; they differ exactly on false, 0 and '' |
| `Worker.ActionUpdates` | window_manager/worker.js:78-86 | The action map holds exactly the ids whose last action's update is non-null, with that update |
| `Worker.PruneActions` | window_manager/worker.js:93 | The pruned ids are exactly the ids with an update, as an order-preserving subsequence |
| `Worker.PruneMatchers` | window_manager/worker.js:92-96 | The surviving matchers are exactly the pruned matchers with actions left, and all their ids have updates. There are no more of them than input matchers |
| `Worker.PruneMatchersAppend` | window_manager/worker.js:92-96 | Pruning distributes over concatenation, so surviving matchers keep their order |
| `Worker.Merge` | window_manager/worker.js:117 | `Object.assign` gives an empty result iff both inputs are empty; merging an empty object changes nothing |
| `Worker.MergeAll` | window_manager/worker.js:107-117 | The merged update is empty iff every contribution is |
| `Worker.MergeAllLastWins` | window_manager/worker.js:106-123 | Each field of the merged update is the last value given for that field |
| `Worker.CompleteLastUpdateWins` | window_manager/worker.js:106-123 | When the last contribution sets every field, it is the merged update |
| `Worker.PreparedUpdateComplete` | window_manager/classes/action.js:117-149 | An action with both a column and a row prepares an update with every field set |
| `Worker.Contributions` | window_manager/worker.js:106-123 | A window with an id receives exactly the updates of every action of every matching matcher, in matcher order and then action order (the last matcher's updates come last); a window without an id receives none |
| `Worker.ContributionsLastSetter` | window_manager/worker.js:106-123 | For any key, the last value among a window's contributions is that of the last matching (matcher, action) pair that sets it, and there is none iff no such pair exists |
| `Worker.WindowUpdateLastSetterWins` | window_manager/worker.js:106-123 | Each key of a window's merged update is the value set by the last matching (matcher, action) pair that sets it; a key no such pair sets is absent |
| `Worker.LastCompleteActionDecides` | window_manager/worker.js:106-123 | When the last action of the last matching matcher sets every key, the window's update is exactly that action's update |
| `Worker.WindowUpdateNonEmpty` | window_manager/worker.js:114-129 | A window gets a non-empty update iff it has an id and some surviving matcher matches it |
| `Worker.Column` | window_manager/worker.js:108-115 | A matcher's `orderArray` entry holds exactly the ids of the windows it matches |
| `Worker.ScheduleOrder` | window_manager/worker.js:132-135 | Reverse, `new Set`, reverse is keeping each id at its last occurrence |
| `Worker.OrderedIds` | window_manager/worker.js:106-135 | The ordered ids are exactly the ids of windows that some surviving matcher matches |
| `Worker.UpdateMap` | window_manager/worker.js:106-129 | The update map holds exactly the windows with a non-empty merged update, with that update; when several windows share an id, the entry is the update of the last of them with a non-empty update, as `Map.set` overwrites |
| `Worker.Emit` | window_manager/worker.js:135-150 | The loop succeeds iff the ordered ids are the map's keys. Then the t-th call is at (k+t)·5 ms with that window's update |
| `Worker.OrderAndMapAgree` | window_manager/worker.js:136-139 | The ordered ids and the map's keys are the same set, so neither "bug in the code" throw can fire |
| `Worker.ScheduleSucceeds` | window_manager/worker.js:135-150 | Scheduling never fails once the matchers are pruned |
| `Worker.Schedule` | window_manager/worker.js:135-145 | The scheduled ids are the deduplicated order, with delays 0, 5, 10, … |
| `Worker.UpdateWindowsWithMatchedActions` | window_manager/worker.js:69-154 | A throwing `matches` rejects the pass. Delays are t·5 ms, and each window is scheduled at most once |
| `Worker.PassOutcome` | window_manager/worker.js:69-154 | The pass succeeds iff no `matches` throws. It then schedules exactly the windows with an id that some surviving matcher matches, each with its merged non-empty update |
| `Worker.OrderFollowsMatchers` | window_manager/worker.js:132-135 | A window whose last match is matcher i comes before any window that a later matcher matches |
| `Worker.LaterMatcherScheduledLater` | window_manager/worker.js:132-145 | Windows whose last match is a later-declared matcher are scheduled later |
| `Worker.UpdateWindowWithAllActions` | window_manager/worker.js:51-55 | A missing window is an error; otherwise at most one update is scheduled, for that window |
| `Worker.SingleWindowPass` | window_manager/worker.js:51-55 | A pass over one window schedules at most that window |
| `Worker.GetValidActions` | window_manager/worker.js:17-24 | The valid actions are exactly the actions whose display resolves, bound to it |
| `Worker.ValidActionsAgree` | window_manager/worker.js:17-24 | `getValidActions` equals `filterWithDisplay(matchActionsToDisplay(..))` |
| `Worker.FindLast` | window_manager/worker.js:38 | The last element that satisfies the predicate, or none iff none does |
| `Worker.UpdateWindowWithSpecifiedAction` | window_manager/worker.js:33-43 | Fails with "no action" iff no valid action satisfies the predicate. Otherwise the result is the update of the last one that does, or its position error |
| `Options.ReferencedIds` | window_manager/options.js:80 | The distinct ids named by some matcher |
| `Options.MissingActionIds` | window_manager/options.js:79-82 | The reported ids are exactly the referenced ids minus the defined ids, each once |
| `Options.ValidateMatchersAndActions` | window_manager/options.js:78-88 | true iff every id some matcher references is the id of some action |
| `Options.ValidAfterDefinedMatcher` | window_manager/options.js:78-88 | Adding a matcher whose ids are all defined keeps a valid configuration valid |
| `Options.InvalidWithUndefinedReference` | window_manager/options.js:78-88 | A reference to an undefined id makes the configuration invalid and is reported |
| `Options.KnownDisplayNames` | window_manager/options.js:99-113 | The known names are: every name and id, 'primary', '-primary' if some display is not primary, 'internal' if some is internal, and '-internal' if some is not. There are no others: each of the three conditional tokens is known only when its display condition holds or a display is named or numbered that way |
| `Options.MinusPrimaryNeedsSecondary` | window_manager/options.js:104-107 | When no display is named '-primary', '-primary' is known iff some display is not primary |
| `Options.UnknownDisplays` | window_manager/options.js:115-117 | Empty iff every action's display is a known name |
| `Options.WarnForIncorrectMonitorIds` | window_manager/options.js:96-123 | No warning iff every action's `display` is a string in the known set |
| `Options.ValidateOptions` | window_manager/options.js:16-70 | The result is invalid JSON iff an input fails to parse. Otherwise validity equals `validateMatchersAndActions`, and "with warnings" means valid with an unknown display |
| `Options.WarningsDoNotAffectValidity` | window_manager/options.js:55-69 | The display list never changes the validity result |
| `Options.SortBy` | window_manager/options.js:156-157 | The sort is a permutation and orders by the key |
| `Options.ShowDisplaysOrder` | window_manager/options.js:155-157 | The listing is a permutation of the displays, ordered by left edge |
| `Options.ShowDisplaysDesktopOrder` | window_manager/options.js:155-157 | The two stable sorts order displays by left edge, and by top edge among displays with the same left edge |

## Left out

- Host I/O: `chrome.storage`, `chrome.system.display.getInfo`, `chrome.windows.update`/`get`/`getAll`, `setTimeout` and console logging. These become inputs and returned values: the schedule list, the new saved snapshot, the new session list.
- The `createUpdate` method of an action is called by `worker.js` but is not defined in `classes/action.js`. It is a parameter of the pass. `Worker.PassOutcome` assumes only that it never returns an empty object, which holds for the objects `prepareUpdate` builds.
- The `mapDisplays` display-reference resolver is not part of this model. It is a parameter, so the display-reference grammar is not modelled.
- Numbers are integers. NaN, fractional pixel values and floating-point rounding of `size * percent / 100` are not modelled. A percent is an exact rational and the result is its floor. `parseFloat` reads an optional sign, `Infinity`, digits, a fraction and an exponent, with the common whitespace characters.
- `toLowerCase` lower-cases ASCII letters only; Unicode case mapping is not modelled.
- Equality of `JSON.stringify` texts is modelled as structural equality of the lists.
- `Position.validate` and `Action.validate` are not modelled. `Position.validate` is static and calls `Settings.validateClass`, which `settings.js` does not define. `Action.validate` calls `validateClass` from `utils/validation.js` (modelled as `Validation.ValidateClass`), then `this.column?.validate()` and `this.row?.validate()`, which fail because `validate` is static on `Position` and not an instance method.
- The `updateAllWindowsWithAllActions` entry point is `Worker.UpdateWindowsWithMatchedActions` applied to all windows.
- Windows are taken with their tabs populated, as both entry points request. `window.tabs` being absent is not modelled.
- `Worker.UpdateWindowsWithMatchedActions`: a throwing `matches` is modelled as a rejected pass, with nothing scheduled. The source evaluates every (window, matcher) pair before scheduling, so this is the same outcome; the error text is not modelled.
- `Options.ValidateOptions`: parsed actions and matchers are taken to be arrays. A JSON value that parses but is not an array makes `.map` throw in the source; this is not modelled. A matcher's `actions` is taken after `flat()`, so a non-array value is a one-element list.
- `Options.ValidateMatchersAndActions`: `Set` membership is value equality on the model's JSON values. Object identity, which makes two distinct objects different ids, is not modelled.
- The DOM side of the options page: status text, formatting, Ctrl-S handling, and storage writes.
- `background.js` (event wiring and the 200 ms debounce), `popup.js`, the schema-validator generator, `promise.js`, `storage.js` and `settings.js`, and the other extensions in the repository are outside this model.
- `Worker.PruneMatchers`: `worker.js` overwrites `matcher.actions` in place on the loaded matcher objects. The model builds new matcher values, so a later reuse of the same objects is not modelled.
- `Displays.DisplaysChanged`: when nothing is stored yet, `#getSavedDisplays` calls `getDisplays()` a second time. The model takes both host reads to return the same list.
- `Worker.Emit`: when the consistency check throws after some `setTimeout` calls were issued, those calls still fire in the source; the model returns an error with nothing scheduled. The throw is unreachable when `createUpdate` never returns an empty object (`Worker.PassOutcome`).
- `Matcher.loadAll`, `Displays.init` and `Displays.getDisplays` are storage and host reads. `getDisplays` is `Displays.DisplayFrom` applied to each display.
