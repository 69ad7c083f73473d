# Translation-request orchestrator of the uk-cs translator form

The form component of the Ukrainian–Czech translator calls the debounced
translation lookup on every change of the source text. It must cope with
several lookups in flight that complete in any order. It stamps each request with the next
value of a counter (`loadingID`) and keeps a second counter (`loadedID`) for
the newest answer it has shown. A response runs through two independent
checks:

- the busy indicator is cleared only by the answer to the most recent request;
- the text is applied only when the answer is newer than every answer shown so
  far, so a slow early answer never overwrites a fast later one.

The component also holds the language direction (Ukrainian→Czech or
Czech→Ukrainian). It can swap the direction and re-send the text, and it
restores the last chosen direction from the browser store at startup.

The project has three files:

- `languages.dfy`: module `Options` (an `Option` type) and module `Languages`.
  `Languages` holds the two language records, the direction `Pair`, the swap,
  and the startup choice of direction.
- `orchestrator.dfy`: module `Orchestrator`, the handlers as pure functions
  over a `View` of the whole state. The lemmas there cover single handlers,
  batches of responses delivered in any order, and arbitrary runs of user
  events and responses.
- `form.dfy`: module `FormComponent`, the class `Form`. The counters and
  component state are mutable fields, and each handler is a method that
  updates them. Every method is proved to move the state exactly as its
  `Orchestrator` function says. The lemmas about those functions therefore
  hold of the class.

The external lookup echoes the request id it was given. The model therefore
lets the caller deliver responses with any id up to `loadingId`, in any order
and any number of times (`requires id <= loadingId` on the response methods).
`String.prototype.trim` is an uninterpreted `string -> string` fixed when the
form is built. The calls to the debounced lookup and to the debounced history
save are recorded as ghost logs (`sent`, `saves`): the arguments are kept, and
what the other side of each call does is not modelled.

Three points of the code are easy to misread. The model does what the code
does in the last two; in the first it departs from the code:

- The counters are module-level variables (src/components/form.js:100-101),
  shared by every mounted form. Here they are fields of the one `Form`
  object, starting at 0.
- Flipping re-sends the text in the new direction. But the text-change handler
  called from inside the flip still sees the old pair, because the framework
  applies the swap only at the next render. So the history save it schedules
  is filed under the old source language (`Orchestrator.Flip`, the `saves`
  ensures).
- The success handler clears the busy flag only for the last request sent,
  as its comment at src/components/form.js:130 says. The failure handler
  (src/components/form.js:142-144) gets no id. When a lookup rejects, it
  clears the flag whichever request failed, even while newer requests are
  still outstanding (`Orchestrator.Fail`). The handler also catches an
  exception thrown by the success handler itself; that path is not part of
  this model (see "## Left out").

## Model

| member | source | states |
|---|---|---|
| `Languages.FlipPair` | src/components/form.js:155 | the new pair has the old target as source and the old source as target |
| `Languages.FlipPairTwice` | src/components/form.js:155 | swapping twice gives back the original pair |
| `Languages.StartupPair` | src/components/form.js:112-118 | the restored pair is (cs, uk) exactly when the store holds "cs"; any other value, absent or empty included, gives (uk, cs) |
| `Languages.StartupPairFlips` | src/components/form.js:113-117 | (uk, cs) and (cs, uk), the pairs restored from an empty store and from "cs", are each other's swap |
| `Languages.StartupPairRestoresStoredSource` | src/components/form.js:159-163 | for either pair the form can show, storing its source id and restoring at startup gives that pair back |
| `Orchestrator.Initial` | src/components/form.js:100-110 | the first render shows empty text, Ukrainian→Czech, not loading, both counters 0, no request or history save made, and the given stored value kept; it satisfies the invariant |
| `Orchestrator.Restore` | src/components/form.js:112-118 | the startup effect sets the pair to the stored direction and changes nothing else |
| `Orchestrator.Change` | src/components/form.js:120-128 | a text change shows the text, raises the busy flag and increases `loadingId` by exactly 1; it sends one request carrying the text, the given or default ids and the new id, which exceeds every earlier id; it schedules a history save under the current source language; translation, `loadedId`, pair and stored default are unchanged; the invariant is kept |
| `Orchestrator.FinishIfLatest` | src/components/form.js:130-133 | the answer to the latest request clears the busy flag; any other id leaves it as it was; nothing else changes |
| `Orchestrator.ApplyIfNewer` | src/components/form.js:135-139 | an id above `loadedId` becomes `loadedId` and its trimmed text is shown; any other id leaves the state unchanged; `loadedId` never decreases |
| `Orchestrator.Respond` | src/components/form.js:129-141 | both checks together: the busy flag as in `FinishIfLatest`, the text and `loadedId` as in `ApplyIfNewer`; only those three fields change; an id already handed out keeps the invariant `loadedId <= loadingId` |
| `Orchestrator.Fail` | src/components/form.js:142-144 | a failed lookup clears the busy flag and changes nothing else: translation, `loadedId` and `loadingId` are unchanged |
| `Orchestrator.Clear` | src/components/form.js:147-149 | clearing shows the empty text, raises the busy flag and hands out the next id; translation and pair are unchanged |
| `Orchestrator.Flip` | src/components/form.js:151-165 | flipping swaps the pair and clears the translation; it re-sends the unchanged text from the old target to the old source under the next id and stores the old target id as the default; `loadedId` is unchanged; the invariant is kept |
| `Orchestrator.ClearIsChangeWithCurrentIds` | src/components/form.js:147-149 | clearing equals a text change to "" with the current pair's ids passed explicitly |
| `Orchestrator.FlipTwice` | src/components/form.js:151-165 | two flips restore the pair and the text and store the original source id again, but the translation stays cleared and two new ids were handed out |
| `Orchestrator.FlipThenRestore` | src/components/form.js:159-163 | from any reachable state, the default a flip stores makes the next startup restore exactly the direction the flip chose, so restoring right after a flip changes nothing |
| `Orchestrator.SentIdsIncrease` | src/components/form.js:127 | under the invariant, ids of dispatched requests strictly increase in dispatch order and never exceed `loadingId` |
| `Orchestrator.DeliverStale` | src/components/form.js:136-139 | responses whose ids do not exceed `loadedId` leave the translation and `loadedId` unchanged, whatever their order |
| `Orchestrator.DeliverHighest` | src/components/form.js:136-139 | after any sequence of responses whose highest id exceeds the initial `loadedId`, `loadedId` is that highest id and the translation is the trimmed text of the first response to arrive with that id |
| `Orchestrator.DeliverLoadedId` | src/components/form.js:136-139 | after any sequence of responses, `loadedId` is the larger of its old value and the highest delivered id |
| `Orchestrator.DeliverOrderIrrelevant` | src/components/form.js:129-141 | two deliveries of the same responses in different orders end with the same translation and `loadedId`, when each id carries one payload |
| `Orchestrator.DeliverLoading` | src/components/form.js:131-133 | after a batch of responses the busy flag is up exactly when it was up before and none of them answered the latest request; `loadingId` is unchanged |
| `Orchestrator.DeliverKeeps` | src/components/form.js:129-141 | responses with handed-out ids keep the invariant and never change the source text, the pair, the dispatched requests or the stored default |
| `Orchestrator.OutOfOrderScenario` | src/components/form.js:120-141 | "Hi" goes out as request 1 and "Hi t" as request 2 (both uk→cs); answer 2 arriving first is shown and clears the busy flag; answer 1 arriving later changes nothing |
| `Orchestrator.StepKeeps` | src/components/form.js:120-165 | any allowed handler call keeps the invariant (ids 1..`loadingId` in order, `loadedId <= loadingId`, the pair one of the two known directions), never lowers `loadingId` or `loadedId`, and only extends the request log |
| `Orchestrator.RunKeeps` | src/components/form.js:120-165 | over any run of text changes, clears, flips, restores, failures and responses with handed-out ids: the invariant holds at the end, both counters never decrease, and earlier requests stay a prefix of the log |
| `Orchestrator.RunCountsDispatches` | src/components/form.js:127 | over any run, `loadingId` and the request log grow by exactly the number of text changes, clears and flips |
| `FormComponent.Form.constructor` | src/components/form.js:100-110 | a new form is in the `Initial` state for the stored value it is given |
| `FormComponent.Form.RestoreDirection` | src/components/form.js:112-118 | the startup effect moves the state as `Restore`: the pair becomes `StartupPair` of the stored value |
| `FormComponent.Form.HandleChangeSource` | src/components/form.js:120-128 | the fields move as `Change`: the text is set, the busy flag raised, `loadingId` incremented and stamped on the last request sent |
| `FormComponent.Form.FinishIfLatest` | src/components/form.js:130-133 | the fields move as `Orchestrator.FinishIfLatest` |
| `FormComponent.Form.ApplyIfNewer` | src/components/form.js:135-139 | the fields move as `Orchestrator.ApplyIfNewer` and the invariant is kept |
| `FormComponent.Form.OnResponse` | src/components/form.js:129-141 | the fields move as `Respond`: a newer id shows its trimmed text and becomes `loadedId`, a stale one leaves both as they were |
| `FormComponent.Form.OnFailure` | src/components/form.js:142-144 | the fields move as `Fail`: the busy flag drops, the translation stays |
| `FormComponent.Form.ClearSource` | src/components/form.js:147-149 | the fields move as `Clear`, which is a text change to "" with the current ids |
| `FormComponent.Form.FlipLanguages` | src/components/form.js:151-165 | the fields move as `Flip`: the pair is swapped, the translation cleared, the old target id stored, and restoring from that stored id gives the new pair |

## Left out

- Debouncing (`debounce-promise`, src/components/form.js:21, 85-86): timers are not modelled. `sent` records every call to the debounced lookup. The model does not capture that several calls within one window reach the lookup as a single request carrying the last call's arguments, nor that all of them resolve with its answer. Responses may therefore carry any handed-out id, any number of times.
- Number precision: the counters are JavaScript Numbers (src/components/form.js:100-101, 127). `++loadingID` is exact only up to 2^53; beyond that the ids stop increasing. The model uses an unbounded `nat`, so `Inv`, `SentIdsIncrease` and the lemmas built on them hold only while fewer than 2^53 requests have been made.
- Malformed replies: a reply is taken to be a request id together with a translated string. `.catch` (src/components/form.js:142) follows `.then` in the chain, so it also runs when the success handler throws. For example, when `data.data` is not a string, line 137 has already advanced `loadedID` before `data.data.trim()` throws at line 138. The code then ends with `loadedID` advanced, the translation unchanged and the busy flag down. `Orchestrator.Respond` does not cover this partial update; `Orchestrator.Fail` covers only a lookup that rejects.
- The lookup itself (`translate` from `../api`): not part of this model. Its answers are the `id`/`data` arguments of the response methods.
- History persistence (`saveHistory`/`getHistory` from `../history`): not part of this model. Only the arguments of each debounced save call are recorded, in `saves`.
- Transliteration (`transliterateCyrilToLatin`/`transliterateLatinToCyril` from `../transliterate`, used for display at src/components/form.js:265): not part of this model. Each language record only carries which transform it selects (`Script`).
- `String.prototype.trim`: left uninterpreted (a function parameter). The JavaScript whitespace set is not encoded.
- Browser storage: only the single "last translation source" entry is modelled. The `typeof window` guard is taken as always true, as it is in a browser.
- The counters as module-level variables shared by every mounted form, and a remount keeping their values: one form object owns them.
- Rendering, styling, the clipboard button, the history dialog and routing (src/components/form.js:32-83, 167-271). Also the arguments the history dialog passes to `handleChangeSource`; any of them is covered by the `Option` ids.
- Hung lookups and timeouts: a lookup that never answers leaves the busy flag up forever. This needs no extra modelling: it is simply the absence of a response.
- src/components/layout.js (consent banner and dialog), src/ui/NewTranslatorPage.tsx (a stub page) and pages/form.js (an older form variant): outside the orchestrator.
