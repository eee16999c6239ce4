# Repository search widget — a Dafny model

The widget is a text input that searches a public code-hosting API for
repositories. Keystrokes are debounced; the answer to each query is cached
per query string and shown as a suggestion list; clicking a suggestion pins
the repository (name, owner, stars) into a panel of at most three entries,
evicting the oldest, with duplicates suppressed by a name+owner key; each
pinned entry can be deleted.

The model covers the component version of the widget and the earlier
single-file draft:

- `js_text.dfy` (`JsText`): `undefined` as `Option`, and
  `String.prototype.trim` over the ECMAScript whitespace and line
  terminator characters.
- `data_manager.dfy` (`DataManager`): the `#cache` map and `#currentQuery`,
  `getReposData` with the fetch outcome as a parameter, `#extractData`, and
  `getRepoData`, including the TypeError it raises when the current query
  has nothing cached.
- `components.dfy` (`Components`): `TextField` (the `text` setter,
  `inputHandler`, `#isValidKey`, `#fillSuggestionsList`,
  `clearSuggestionsList`) and `SelectedRepos` (`addRepoHandler`,
  `#removeSelectedRepo`, `#addedRepos`) as pure transitions over the state
  of both components and their shared data manager, with the DOM replaced by
  sequences. User sessions are sequences of actions.
- `debounce.dfy` (`Debounce`): `Utils.debounce` and the draft `debounce` as
  a closure holding a timer handle over an explicit host timer list and a
  logical clock.
- `draft_script.dfy` (`DraftScript`): the draft's `isCorrectKey`,
  `fillSelectionList` (with `SendRequest`, `addListItems` and
  `clearSelectionList` folded in), `addSelectedRepo` and
  `removeSelectedRepo`.

Behaviours of the code the model keeps:

- `addRepoHandler` evicts the oldest entry before it looks the record up and
  before it checks for a duplicate. Clicking an already pinned repository
  on a full panel therefore shrinks the panel to two entries, instead of
  leaving it unchanged (`Components.DuplicateAtCapacityEvicts`).
- `#addedRepos` is never shrunk. A repository that was evicted or deleted
  can never be pinned again in the same session (`Components.PinnedNeverReturns`).
- `getReposData` refuses only the empty string. Whitespace-only text is
  stopped earlier, by the trim in `inputHandler` (`Components.InputQueryIsTrimmed`).
- `#isValidKey` reads `ctrlKey`, `altKey` and `key` from `evt.target`, not
  from the event. For an input element these are absent, so the check
  reduces to "the text is not blank" (`Components.PlainTargetChecksOnlyText`).
- `getRepoData` searches the list cached for `#currentQuery`, the last
  non-empty query asked. When that query has nothing cached (its fetch
  failed, none has been asked yet, or its request has not answered yet),
  `.find` on `undefined` throws. The
  click handler then stops after the eviction.
- A successful response whose body lacks `items` is cached as an empty
  list, rather than being treated as an error.
- The duplicate key is a plain concatenation, so different repositories can
  collide (`Components.KeyCollision`).
- The handlers read the input's live value through `evt.target`. In a
  session, typing first stores the typed text in the input (without the
  `text` setter), and the debounced handler then reads it
  (`Components.TypedTextReachesInput`); the draft's `FillSelectionList`
  likewise leaves the input holding the value it read.

## Model

| member | source | states |
|---|---|---|
| JsText.Trim | scripts/Components.js:89 | The trimmed text is no longer than the input and neither starts nor ends with whitespace |
| JsText.TrimIsSlice | scripts/Components.js:89 | Trimming removes only whitespace: the result is a contiguous slice of the input with whitespace alone before and after it |
| JsText.TrimBlankIff | scripts/Components.js:89-90 | A text trims to the empty string exactly when it consists only of whitespace |
| JsText.TrimIdempotent | scripts/Components.js:89 | Trimming an already trimmed text changes nothing |
| DataManager.ExtractData | scripts/DataManager.js:65-75 | Normalisation loses nothing it reads: the id, name, owner login and star count can be recovered from the record |
| DataManager.ExtractAll | scripts/DataManager.js:50 | Mapping over the items yields one record per item, in the same order, each recovering its item |
| DataManager.GetReposData | scripts/DataManager.js:38-57 | The empty query answers [] and changes nothing. Any other query becomes the current query. A request is sent exactly on a cache miss. A hit answers the stored list. A successful miss stores the extracted items under that query and no other key. Any failure answers [] and caches nothing. Existing entries are never changed |
| DataManager.FirstNamed | scripts/DataManager.js:84 | The position found holds the name, and no earlier record has it |
| DataManager.GetRepoData | scripts/DataManager.js:83-85 | The lookup throws exactly when the current query has no cache entry. It returns the first record with that name from that entry, and is undefined only when no record there has the name |
| DataManager.RepeatedQueryHits | scripts/DataManager.js:41-52 | Asking a cached query again sends no request, answers the same list and leaves the state as it was |
| DataManager.FailureIsRetried | scripts/DataManager.js:46-56 | After a failed request the query is still uncached, so the same query goes to the network again |
| DataManager.SessionCacheExtends | scripts/DataManager.js:43-51 | Over any sequence of calls the cache keys only grow and no stored entry ever changes |
| DataManager.EmptyQueryNeverCached | scripts/DataManager.js:39-51 | From a fresh manager, the empty query is never a cache key. While the current query is still empty, every name lookup throws |
| DataManager.NoEmptyKeyKept | scripts/DataManager.js:39 | No call ever adds the empty string as a cache key |
| Components.IsValidKey | scripts/Components.js:114-126 | Accepts exactly a text that is not all whitespace, with no modifier down and a key that is not one of Space or the four arrows, all read off the target; PlainTargetChecksOnlyText and DraftScript.KeyFiltersAgree relate it to a plain input and to the draft's filter |
| Components.TypedTextReachesInput | scripts/Components.js:77-79 | After a keystroke the input shows the typed text, and an accepted keystroke makes that text, trimmed, the current query |
| Components.Names | scripts/Components.js:136-138 | The suggestion list shows one name per record, in order |
| Components.SetText | scripts/Components.js:63-69 | The text is stored. The suggestion list is cleared exactly when the new text is blank and is otherwise kept |
| Components.ClearSuggestionsList | scripts/Components.js:150-154 | The list ends empty and the text is untouched |
| Components.FillSuggestionsList | scripts/Components.js:133-145 | The list holds exactly the records' names in order, with nothing left from before, and the text is untouched |
| Components.InputHandler | scripts/Components.js:88-105 | Blank input clears the list and sends no query. A rejected key changes nothing. An accepted key queries the trimmed text and shows exactly the names the manager answers. The panel and the text are never touched |
| Components.Evict | scripts/Components.js:219-221 | A panel with three or more entries loses exactly its first entry. A smaller panel is unchanged |
| Components.PinIfNew | scripts/Components.js:226-251 | A known key leaves the panel and keys unchanged. A new key is recorded and its entry appended last, behind the unchanged earlier entries |
| Components.AddRepoHandler | scripts/Components.js:218-259 | The eviction always happens first. The handler throws exactly when the lookup finds no record, and then nothing but the eviction has happened. Otherwise the text and suggestions are cleared and the entry is pinned unless its key is known. The panel never exceeds three, keys are never removed, and the manager is untouched |
| Components.RemoveSelectedRepo | scripts/Components.js:266-269 | Exactly the clicked entry leaves the panel and the others keep their order. The key set is unchanged |
| Components.EvictKeepsValid | scripts/Components.js:219-221 | Eviction keeps the panel invariant (at most three entries, every key recorded, keys distinct) and leaves room for one more |
| Components.PinKeepsValid | scripts/Components.js:226-231 | Pinning into a panel with room keeps the panel invariant |
| Components.AddKeepsValid | scripts/Components.js:218-259 | A click on a suggestion keeps the panel invariant |
| Components.RemoveKeepsValid | scripts/Components.js:266-269 | Deleting an entry keeps the panel invariant |
| Components.PlainTargetChecksOnlyText | scripts/Components.js:114-126 | When the target carries no modifier or key fields, the key filter accepts exactly the non-blank texts |
| Components.InputQueryIsTrimmed | scripts/Components.js:89-102 | The input handler either leaves the manager alone or makes a non-empty, already trimmed text the current query |
| Components.ShownSuggestionsResolve | scripts/Components.js:136-142 | After an accepted keystroke whose answer is cached, clicking any shown suggestion finds its record, so the click handler does not throw |
| Components.DuplicateAtCapacityEvicts | scripts/Components.js:218-229 | On a full panel, clicking an already pinned repository still evicts the oldest entry, leaving two |
| Components.DuplicateBelowCapacityKeepsPanel | scripts/Components.js:226-229 | Below capacity, clicking an already pinned repository leaves panel and keys unchanged and clears the text |
| Components.StepKeepsValid | scripts/Components.js:218-269 | Every user action keeps the panel invariant and removes no key |
| Components.SessionKeepsValid | scripts/Components.js:218-269 | Over any session the panel holds at most three entries with distinct, recorded keys |
| Components.SessionKeysGrow | scripts/Components.js:198 | Over any session the set of pinned keys only grows |
| Components.PinnedNeverReturns | scripts/Components.js:226-231 | A repository pinned once is never pinned again later in the session: clicking it only evicts |
| Components.KeyCollision | scripts/Components.js:226 | Repository `a` by owner `bc` is taken for a duplicate of `ab` by `c` and is not pinned |
| Components.OctoScenario | scripts/Components.js:218-269 | With query "octo" answering octo-1..octo-5, pinning octo-1, octo-2 and octo-3 gives that order. Pinning octo-4 gives octo-2, octo-3, octo-4. Deleting octo-3 gives octo-2, octo-4 |
| Debounce.ClearTimeout | scripts/Utils.js:19 | With no handle nothing changes; with a handle exactly that timer is dropped and every other stays |
| Debounce.Create | scripts/Utils.js:16-17 | A fresh debounced function has no remembered timer and nothing pending, and satisfies the one-pending-timer invariant |
| Debounce.EffectiveDelay | scripts/Utils.js:20-22 | A negative delay waits exactly zero. Any other delay waits exactly that long |
| Debounce.Call | scripts/Utils.js:18-23 | A call cancels the pending invocation and leaves exactly one pending: its own, due one delay from now |
| Debounce.Advance | scripts/Utils.js:20-22 | The clock never goes back. The pending invocation runs exactly when it has come due, at its due time, and is then no longer pending |
| Debounce.BurstLeavesLastPending | scripts/Utils.js:16-24 | During a burst of calls closer together than the delay nothing runs. Afterwards only the last call's invocation is pending, due one delay after it |
| Debounce.BurstFiresOnce | scripts/Utils.js:16-24 | A burst followed by a quiet period of one delay runs exactly one invocation: the last call's, one delay after it |
| Debounce.QuietPeriodTooShort | scripts/Utils.js:19-22 | Nothing runs if the wait after the last call of a burst is shorter than the delay |
| Debounce.Invoke | scripts/Utils.js:16-24 | The pending invocation is applied to the receiver fixed at creation, or is a plain call when there is none, with this call's arguments |
| Debounce.InvokeDraft | script.js:28-39 | The draft applies the pending invocation to the receiver of the call itself, with this call's arguments |
| Debounce.ThreeKeystrokes | scripts/Utils.js:16-24 | Calls at 0, 100 and 200 with a delay of 500 and then quiet cause one invocation, at 700, with the arguments of the call at 200 |
| DraftScript.IsCorrectKey | script.js:41-51 | Accepts exactly a non-blank text with neither Ctrl nor Alt down and a key that is not Space or an arrow; KeyFiltersAgree shows it is the component's filter applied to the event's own fields |
| DraftScript.RawNames | script.js:57-60 | One list item per raw result, showing its name, in order |
| DraftScript.ListedNames | script.js:99-111 | Names are listed exactly when the status is ok, the body parses and it has `items`. Every other outcome rejects, and the rejection is swallowed |
| DraftScript.FillSelectionList | script.js:6-26 | Backspace on an empty input clears the list. An accepted key replaces the list by the answer, or by nothing on failure. Any other key leaves the list alone. The input holds the value read through the target and the panel is untouched |
| DraftScript.AddSelectedRepo | script.js:66-82 | Input and list are cleared and the name is appended to the panel, with no bound and no duplicate check |
| DraftScript.RemoveSelectedRepo | script.js:92-96 | Exactly the clicked entry leaves the panel, the others keep their order |
| DraftScript.KeyFiltersAgree | script.js:41-51 | The draft's key filter accepts exactly what the component filter accepts when handed the same fields on the target |
| DraftScript.PanelUnbounded | script.js:66-82 | Picking the same name n times grows the panel by n, every new entry showing that name |
| DraftScript.PickKeepsPrefix | script.js:79 | Picking never disturbs the entries already in the panel |

## Left out

- The DOM: element lookup, templates, the Name/Owner/Stars spans, the delete icon's listener bookkeeping, and the draft's "Owner :"/"Stars :" placeholders. Lists and panels are sequences of what they show.
- Listener wiring (`listenInput`, the draft's `addEventListener` with its 800 ms delay) and the constructors. They only connect the modelled handlers.
- `console` logging and the draft's `alert`. Neither changes the widget's state.
- URL building (`baseURL`, `encodeURIComponent`) and text with an unpaired UTF-16 surrogate. Strings here are sequences of Unicode scalar values, so such text cannot be written. On it, `encodeURIComponent` throws `URIError`. In `getReposData` this happens after `#currentQuery` is set and outside the `try`, so the promise rejects; `inputHandler`'s `.catch` swallows it and the suggestion list keeps its old names. In the draft it throws before `isCorrectKey`, so the list is neither cleared nor refilled and no request is sent.
- The network is a parameter: each query is handed the outcome its request would have. Each `await` is taken as atomic. Not modelled: two overlapping requests resolving out of order, a request that never settles, and clicks while a request is pending. In that window `#currentQuery` already names the new, uncached query while the list still shows the previous answer, so a click on a suggestion evicts the oldest entry and then throws.
- Raw results whose `owner` is missing are not modelled: destructuring would throw inside the `try`, and the call would answer [] without caching. The model's raw record always has an owner.
- Debounce.EffectiveDelay: does not model the host clamping delays above 2^31-1 to zero, or non-numeric delays, because both are host behaviour outside the widget.
- Debounce.Invoke: the receiver is an object or absent. A falsy non-null `thisArg` (0, "", false) would give a plain call, and is not modelled because the widget always passes the component.
- Debounce.Advance: when several timers are due, they run in list order rather than in due-time order. Under the debouncer's invariant there is at most one.
- Cancelling a pending debounced call on teardown: the code has no such operation.
- The `text` getter only reads the input's value, which `TextField.text` holds; typing updates it as described above.
