# Satisfaction survey wizard — a Dafny model

The page under `src/app/page.tsx` is a hospital satisfaction survey. It shows seven
questions one at a time. The first question is answered in a text field. The other six
are answered by picking one of five rating glyphs. The rated answers are saved to
browser storage as they are given; the free-text draft is kept only in memory and is
never saved. A thank-you screen follows the last question. All the behaviour
sits in one component, `Home`. Its state is four variables: the current step, the
`responses` array (a glyph or null per question), the free-text draft, and a
`finished` flag.

The model has three modules:

- `Catalog` (`catalog.dfy`): the fixed question list and the five glyphs.
- `Wizard` (`wizard.dfy`): the state machine over values. Each event handler is a
  total function that keeps only its own guard, as the handler does. The second layer
  of guards lives in the rendering: disabled buttons, and which controls are rendered
  at all. Each of these is a predicate (`ShowsGlyphs`, `ShowsTextField`, `BackEnabled`,
  `NextEnabled`, `FinishEnabled`, `RestartEnabled`), and `Enabled` collects them per
  user action. `Inv` says the step indexes the catalog, no question was skipped
  unanswered, and the thank-you screen comes only after the last answer; it holds
  along every sequence of enabled actions after mounting, whatever storage held.
  `Clean` says one slot per question, slot 0 empty, and only glyphs recorded; it holds
  along every such sequence when storage held a clean array or nothing at mount (an
  array stored in another shape, `[]` say, is not clean to begin with).
- `Page` (`home.dfy`): the component as a class `Home`. Its fields are the four
  state variables plus `stored`, an abstract mirror of the persisted key. Each method
  is one user action. Its precondition is that action's interface guard. Its body is
  the handler with the handler's own guard. The persist effect counts as part of the
  same step. Each postcondition ties the new state to the `Wizard` function and keeps
  `Valid()`, that is, `Inv` plus `stored == responses`. `Opening` and `Closing` are
  clients that walk the survey from mount through finishing and restarting.

Script semantics carried over explicitly:

- A read past the end of `responses` yields `undefined`. `Read` models it as null, so
  the model is safe for a rehydrated array of any length.
- The button tests `!textResponse` and `!responses[i]` use truthiness. The empty
  string is falsy too, so an empty string is not an answer (`Answered`).
- Assigning `updated[i]` past the end of a script array lengthens it and leaves holes.
  Storage serialises those holes as null, so `Record` pads with null.

Restarting also clears the stored answers: the restart handler sets `responses` to a
fresh all-null array (line 91), which fires the persist effect (lines 36-38) and
overwrites the stored answers with nulls. `Page.Home.Restart` ensures
`stored == Blank()`.

## Model

| member | source | states |
|---|---|---|
| `Catalog.KindOf` | src/app/page.tsx:11-19 | question `i` of the catalog asks for free text exactly when `i == 0`; every other question is rated |
| `Wizard.Blank` | src/app/page.tsx:25 | the fresh responses array has one slot per question and every read of it, in range or past the end, is null |
| `Wizard.Initial` | src/app/page.tsx:24-27 | the component starts at step 0, not finished, with an empty draft and the all-null array of N slots, so no question is answered |
| `Wizard.Record` | src/app/page.tsx:41-42 | copying and assigning slot `i` makes slot `i` read as the glyph and every other slot read as before; the length is kept when `i` is in range, and otherwise becomes `i + 1` |
| `Wizard.HandleAnswer` | src/app/page.tsx:40-44 | only `responses[currentStep]` changes, to the picked glyph; the length is kept when the step is in range (past the end the copy grows to `step + 1`, padded with null); step, draft and flag are untouched |
| `Wizard.NextStep` | src/app/page.tsx:46-50 | on the last question nothing changes; before it the step grows by exactly one; the step stays below N; nothing but the step changes |
| `Wizard.PrevStep` | src/app/page.tsx:52-56 | on step 0 nothing changes; otherwise the step drops by exactly one; the step stays below N; nothing but the step changes |
| `Wizard.HandleFinish` | src/app/page.tsx:58-60 | the flag becomes true and nothing else changes |
| `Wizard.Restart` | src/app/page.tsx:88-93 | from any state, the result is exactly the initial state: step 0, not finished, empty draft, all-null array of length N |
| `Wizard.EditText` | src/app/page.tsx:152 | the draft becomes the field's value and nothing else changes |
| `Wizard.Rehydrate` | src/app/page.tsx:29-34 | a present stored array replaces `responses`; with nothing stored `responses` is kept; nothing else changes |
| `Wizard.Mounted` | src/app/page.tsx:24-38 | after mounting the state is initial except that `responses` is the stored array when there is one; it satisfies `Inv`, and it is `Clean` when storage held a clean array or nothing |
| `Wizard.Read` | src/app/page.tsx:180 | reading slot `i` gives a value only when `i` is in range and the slot holds it; past the end, as for a script's undefined, it gives null |
| `Wizard.Answered` | src/app/page.tsx:169-190 | the truthiness test `!!responses[i]`: true exactly when slot `i` is in range and holds a non-empty string, so null, undefined and `""` are unanswered |
| `Wizard.ShowsGlyphs` | src/app/page.tsx:130-146 | the glyph buttons are rendered exactly on the wizard screen at a rated question, steps 1 to N-1 |
| `Wizard.ShowsTextField` | src/app/page.tsx:147-155 | the text field is rendered exactly on the wizard screen at step 0, and never together with the glyph buttons |
| `Wizard.BackEnabled` | src/app/page.tsx:159-165 | "Voltar" is disabled at step 0; when enabled its handler goes back by exactly one |
| `Wizard.NextEnabled` | src/app/page.tsx:167-185 | when "Próximo" is enabled its handler advances by exactly one; at step 0 the draft is non-empty, later the current slot holds an answer |
| `Wizard.FinishEnabled` | src/app/page.tsx:187-194 | "Finalizar" is never enabled together with "Próximo"; when enabled the step is the last one and its slot is answered |
| `Wizard.RestartEnabled` | src/app/page.tsx:62-99 | the restart button exists only on the completion screen, where no wizard control is rendered or enabled |
| `Wizard.Enabled` | src/app/page.tsx:130-195 | an action is enabled only on its own screen (restart exactly on the completion screen, every other action on the wizard screen); a glyph pick uses one of the five glyphs and never happens at step 0 |
| `Wizard.Apply` | src/app/page.tsx:141-189 | each action fires its handler: restart gives the initial state; only finishing sets the flag; only a glyph pick or restart changes `responses` (so only they fire the persist effect); only typing or restart changes the draft |
| `Wizard.FinishedIsComplete` | src/app/page.tsx:187-194 | under the invariant, the thank-you screen implies a non-empty draft and an answer for every rated question |
| `Wizard.EnabledMovesByOne` | src/app/page.tsx:159-185 | when "Próximo" (next) is enabled the step advances by one; when "Voltar" (back) is enabled it goes back by one; the handler's own guard never blocks an enabled button |
| `Wizard.BackUndoesForward` | src/app/page.tsx:46-56 | going forward then back, or back then forward, away from the ends, returns the same state |
| `Wizard.StepKeepsInv` | src/app/page.tsx:130-194 | every enabled action keeps `Inv`: step in bounds, no unanswered question passed, finished only after the last answer |
| `Wizard.StepKeepsClean` | src/app/page.tsx:130-145 | every enabled action keeps one slot per question, slot 0 empty and only glyphs recorded |
| `Wizard.FirstSlotUntouched` | src/app/page.tsx:130-141 | since question 0 is the text question, no enabled action changes `responses[0]`: glyphs are never recorded there, and restart writes back the null a clean array already holds there |
| `Wizard.TraceKeepsInv` | src/app/page.tsx:40-60 | `Inv` holds after any sequence of enabled actions |
| `Wizard.TraceKeepsClean` | src/app/page.tsx:40-44 | `Clean` holds after any sequence of enabled actions |
| `Wizard.Reachable` | src/app/page.tsx:24-60 | from mounting on, whatever enabled actions follow: `questions[currentStep]` is in bounds, finishing implies every question answered, and the responses stay clean when storage was clean or empty |
| `Page.Home.Mount` | src/app/page.tsx:24-38 | the constructed component is `Valid`, equals `Mounted(saved)`, takes over the stored array when present, and mirrors it back to storage |
| `Page.Home.CurrentQuestion` | src/app/page.tsx:124 | the lookup `questions[currentStep]` is in bounds in every valid state, and it is the text question exactly at step 0 |
| `Page.Home.HandleAnswer` | src/app/page.tsx:36-44 | a glyph click updates the state as `HandleAnswer` does, keeps `Valid` and `Clean`, and storage afterwards holds the updated array |
| `Page.Home.NextStep` | src/app/page.tsx:46-50 | an enabled "Próximo" click advances the step by exactly one, as `NextStep` does, keeps `Valid`, and leaves storage alone |
| `Page.Home.PrevStep` | src/app/page.tsx:52-56 | an enabled "Voltar" click goes back by exactly one, as `PrevStep` does, keeps `Valid`, and leaves storage alone |
| `Page.Home.HandleFinish` | src/app/page.tsx:58-60 | an enabled "Finalizar" click sets the flag, keeps `Valid`, and leaves a complete survey behind |
| `Page.Home.Restart` | src/app/page.tsx:88-93 | the restart click updates the state as `Restart` does, which is the initial state, keeps `Valid`, and overwrites storage with the all-null array |
| `Page.Home.SetTextResponse` | src/app/page.tsx:149-153 | typing on the text question replaces the draft and changes nothing else, storage included |
| `Page.Opening` | src/app/page.tsx:167-184 | from mounting with empty storage, typing a draft and "Próximo" reach step 1 (where "Próximo" is asserted disabled until a glyph is picked); after back and forward the component is valid, at step 1, with the draft intact |
| `Page.Closing` | src/app/page.tsx:187-194 | from the last question, answering and finishing reaches a complete thank-you state; restarting then gives the initial state and all-null storage |

## Left out

- Rendering: markup, CSS classes, the thank-you texts and decorative icons (lines 62-99 and 101-206), and the highlight of the picked glyph (line 137). None of it changes state.
- The UI library components (`Button`, `Card`, `Input`, `Progress`), animation, icons and images. Their code is not part of this model. Only what they do for the state is kept: a button fires its callback unless it is disabled, and the field reports its value.
- Real storage access and JSON encoding (lines 30-32 and 37). This is I/O. Storage is the abstract field `stored`, holding the decoded array. What was stored before mounting is the constructor's argument `saved`, where `None` means no key or an empty string.
- A malformed stored value, on which `JSON.parse` throws an uncaught error.
- A stored value that parses but is not an array of strings and nulls. This page only ever writes such arrays, so other shapes come from outside it. The script throws on some of them (for example `null` or an object, once `responses[currentStep]` or the spread is evaluated). It coerces others: an array of numbers makes "Próximo" enabled without a pick, and a string is read and spread character by character. The model follows neither behaviour. An array of strings and nulls of any length and content is modelled.
- The progress bar percentage (line 116). It is floating-point arithmetic used only for display.
- React's effect scheduling and batched updates. Each handler, together with the persist effect it triggers, is one atomic step. Mounting is one step too: the initial state, the rehydrate effect, then persisting. This hides a transient first write of the blank array, which the persist effect then overwrites with the rehydrated one.
