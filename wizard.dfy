/**
 The survey wizard as a state machine over values. The component's four state
 variables form a `State`; every event handler is a total function on states and
 keeps its own guard. The user interface adds a second layer of guards, through
 disabled buttons and conditional rendering; `Enabled` collects those. The
 lemmas show that the two layers together keep the wizard's invariants along
 every sequence of user actions.
 */
module Wizard {
  import opened Catalog

  datatype Option<T> = None | Some(value: T)

  /** The `responses` array: one slot per question, holding a glyph or null. */
  type Responses = seq<Option<string>>

  /** `currentStep`, `responses`, `textResponse` and `finished`. */
  datatype State = State(step: nat, responses: Responses, text: string, finished: bool)

  /** Reading `responses[i]`; a read past the end yields undefined, taken here as null. */
  function Read(rs: Responses, i: nat): (r: Option<string>)
    ensures r.Some? ==> i < |rs| && rs[i] == r
    ensures i < |rs| && rs[i].Some? ==> r.Some?
  {
    if i < |rs| then rs[i] else None
  }

  /** The truth value of `responses[i]`: null, undefined and the empty string are falsy. */
  predicate Answered(rs: Responses, i: nat)
    ensures Answered(rs, i) ==> i < |rs| && rs[i].Some? && rs[i] != Some("")
    ensures i < |rs| && rs[i].Some? && rs[i].value != "" ==> Answered(rs, i)
  {
    Read(rs, i).Some? && Read(rs, i).value != ""
  }

  /** `Array(questions.length).fill(null)`. */
  function Blank(): (r: Responses)
    ensures |r| == N
    ensures forall i: nat :: Read(r, i) == None
  {
    seq(N, _ => None)
  }

  /** The state the component is created in. */
  function Initial(): (s: State)
    ensures s.step == 0 && !s.finished && s.text == ""
    ensures s.responses == Blank() && forall i: nat :: !Answered(s.responses, i)
  {
    State(0, Blank(), "", false)
  }

  /** Copy `rs` and assign slot `i`. Assigning past the end of a script array
      lengthens it, leaving holes that serialise as null. */
  function Record(rs: Responses, i: nat, e: string): (r: Responses)
    ensures |r| == if i < |rs| then |rs| else i + 1
    ensures forall j: nat :: Read(r, j) == if j == i then Some(e) else Read(rs, j)
  {
    if i < |rs| then rs[i := Some(e)] else rs + seq(i - |rs|, _ => None) + [Some(e)]
  }

  // ---------------------------------------------------------------------------
  // The handlers, each with only its own guard

  /** `handleAnswer(emoji)`: records the glyph for the current question only. */
  function HandleAnswer(s: State, e: string): (t: State)
    ensures Read(t.responses, s.step) == Some(e)
    ensures forall j: nat :: j != s.step ==> Read(t.responses, j) == Read(s.responses, j)
    ensures |t.responses| == if s.step < |s.responses| then |s.responses| else s.step + 1
    ensures t.step == s.step && t.text == s.text && t.finished == s.finished
  {
    s.(responses := Record(s.responses, s.step, e))
  }

  /** `nextStep()`: moves forward by one, except on the last question. */
  function NextStep(s: State): (t: State)
    ensures s.step < N ==> t.step < N
    ensures s.step == N - 1 ==> t == s
    ensures s.step < N - 1 ==> t.step == s.step + 1
    ensures t.responses == s.responses && t.text == s.text && t.finished == s.finished
  {
    if s.step < N - 1 then s.(step := s.step + 1) else s
  }

  /** `prevStep()`: moves back by one, except on the first question. */
  function PrevStep(s: State): (t: State)
    ensures s.step < N ==> t.step < N
    ensures s.step == 0 ==> t == s
    ensures s.step > 0 ==> t.step == s.step - 1
    ensures t.responses == s.responses && t.text == s.text && t.finished == s.finished
  {
    if s.step > 0 then s.(step := s.step - 1) else s
  }

  /** `handleFinish()`: enters the completion screen and changes nothing else. */
  function HandleFinish(s: State): (t: State)
    ensures t.finished
    ensures t.step == s.step && t.responses == s.responses && t.text == s.text
  {
    s.(finished := true)
  }

  /** The restart button of the completion screen: back to the initial state,
      whatever the state was. */
  function Restart(s: State): (t: State)
    ensures t == Initial()
    ensures t.step == 0 && !t.finished && t.text == "" && t.responses == Blank()
  {
    State(0, Blank(), "", false)
  }

  /** The text field's `onChange`: replaces the draft and nothing else. */
  function EditText(s: State, v: string): (t: State)
    ensures t.text == v
    ensures t.step == s.step && t.responses == s.responses && t.finished == s.finished
  {
    s.(text := v)
  }

  /** The mount effect: a stored array, when there is one, replaces `responses`. */
  function Rehydrate(s: State, saved: Option<Responses>): (t: State)
    ensures saved.Some? ==> t.responses == saved.value
    ensures saved.None? ==> t.responses == s.responses
    ensures t.step == s.step && t.text == s.text && t.finished == s.finished
  {
    match saved
    case Some(rs) => s.(responses := rs)
    case None => s
  }

  /** The state right after mounting, given what storage held. */
  function Mounted(saved: Option<Responses>): (s: State)
    ensures s.step == 0 && !s.finished && s.text == ""
    ensures s.responses == if saved.Some? then saved.value else Blank()
    ensures Inv(s)
    ensures (saved.None? || Clean(saved.value)) ==> Clean(s.responses)
  {
    Rehydrate(Initial(), saved)
  }

  // ---------------------------------------------------------------------------
  // The guards of the user interface

  /** The five glyph buttons are rendered only for a rated question. */
  predicate ShowsGlyphs(s: State)
    ensures ShowsGlyphs(s) <==> !s.finished && 0 < s.step < N
  {
    !s.finished && s.step < N && KindOf(s.step) == Emoji
  }

  /** The text field is rendered only for the free-text question. */
  predicate ShowsTextField(s: State)
    ensures ShowsTextField(s) <==> !s.finished && s.step == 0
    ensures ShowsTextField(s) ==> !ShowsGlyphs(s)
  {
    !s.finished && s.step < N && KindOf(s.step) != Emoji
  }

  /** "Voltar" is disabled on the first question. */
  predicate BackEnabled(s: State)
    ensures BackEnabled(s) ==> PrevStep(s).step + 1 == s.step
    ensures !s.finished && s.step == 0 ==> !BackEnabled(s)
  {
    !s.finished && s.step != 0
  }

  /** "Próximo" is rendered before the last question; it needs a non-empty draft
      on the free-text question and a recorded answer on the others. */
  predicate NextEnabled(s: State)
    ensures NextEnabled(s) ==> NextStep(s).step == s.step + 1
    ensures NextEnabled(s) && s.step == 0 ==> s.text != ""
    ensures NextEnabled(s) && s.step > 0 ==> Read(s.responses, s.step).Some?
  {
    && !s.finished
    && s.step < N - 1
    && if s.step == 0 then s.text != "" else Answered(s.responses, s.step)
  }

  /** "Finalizar" replaces "Próximo" on the last question and needs its answer. */
  predicate FinishEnabled(s: State)
    ensures FinishEnabled(s) ==> !NextEnabled(s) && !s.finished
    ensures FinishEnabled(s) && s.step < N ==> s.step == N - 1 && Answered(s.responses, N - 1)
  {
    && !s.finished
    && !(s.step < N - 1)
    && Answered(s.responses, s.step)
  }

  /** The restart button exists only on the completion screen. */
  predicate RestartEnabled(s: State)
    ensures RestartEnabled(s) ==> !BackEnabled(s) && !NextEnabled(s) && !FinishEnabled(s)
    ensures RestartEnabled(s) ==> !ShowsGlyphs(s) && !ShowsTextField(s)
  {
    s.finished
  }

  /** A user action on the page. */
  datatype Action = Pick(glyph: string) | Type(draft: string) | Back | Forward | Finish | StartOver

  predicate Enabled(s: State, a: Action)
    ensures Enabled(s, a) ==> (a.StartOver? <==> s.finished)
    ensures Enabled(s, a) && a.Pick? ==> a.glyph in Answers && s.step != 0
  {
    match a
    case Pick(e) => ShowsGlyphs(s) && e in Answers
    case Type(_) => ShowsTextField(s)
    case Back => BackEnabled(s)
    case Forward => NextEnabled(s)
    case Finish => FinishEnabled(s)
    case StartOver => RestartEnabled(s)
  }

  /** The handler each action fires, followed by the persist effect (which does
      not change the state). */
  function Apply(s: State, a: Action): (t: State)
    ensures a.StartOver? ==> t == Initial()
    ensures !a.StartOver? ==> t.finished == (s.finished || a.Finish?)
    ensures !(a.Pick? || a.StartOver?) ==> t.responses == s.responses
    ensures !(a.Type? || a.StartOver?) ==> t.text == s.text
  {
    match a
    case Pick(e) => HandleAnswer(s, e)
    case Type(v) => EditText(s, v)
    case Back => PrevStep(s)
    case Forward => NextStep(s)
    case Finish => HandleFinish(s)
    case StartOver => Restart(s)
  }

  /** Every action of `acts`, in turn, is enabled when it is taken. */
  predicate Trace(s: State, acts: seq<Action>)
    decreases |acts|
  {
    acts == [] || (Enabled(s, acts[0]) && Trace(Apply(s, acts[0]), acts[1..]))
  }

  function Run(s: State, acts: seq<Action>): State
    decreases |acts|
  {
    if acts == [] then s else Run(Apply(s, acts[0]), acts[1..])
  }

  // ---------------------------------------------------------------------------
  // Invariants

  /** The step indexes the catalog; advancing never passed an unanswered
      question; the completion screen is reached only from the answered last
      question. */
  predicate Inv(s: State) {
    && s.step < N
    && (s.step > 0 ==> s.text != "")
    && (forall i: nat :: 1 <= i < s.step ==> Answered(s.responses, i))
    && (s.finished ==> s.step == N - 1 && Answered(s.responses, N - 1))
  }

  /** One slot per question, the free-text question never holds a glyph, and
      every recorded answer is one of the five glyphs. */
  predicate Clean(rs: Responses) {
    && |rs| == N
    && rs[0] == None
    && forall i :: 0 <= i < |rs| ==> rs[i].None? || rs[i].value in Answers
  }

  /** Completion means every question has an answer. */
  predicate Complete(s: State) {
    s.text != "" && forall i: nat :: 1 <= i < N ==> Answered(s.responses, i)
  }

  // ---------------------------------------------------------------------------
  // Properties

  lemma FinishedIsComplete(s: State)
    requires Inv(s) && s.finished
    ensures Complete(s)
  {
  }

  /** Under its button's guard each navigation handler's own guard always passes. */
  lemma EnabledMovesByOne(s: State)
    ensures NextEnabled(s) ==> NextStep(s) == s.(step := s.step + 1)
    ensures BackEnabled(s) ==> PrevStep(s) == s.(step := s.step - 1)
  {
  }

  /** Forward then back, and back then forward, return to the same state. */
  lemma BackUndoesForward(s: State)
    ensures s.step < N - 1 ==> PrevStep(NextStep(s)) == s
    ensures 0 < s.step < N ==> NextStep(PrevStep(s)) == s
  {
  }

  lemma StepKeepsInv(s: State, a: Action)
    requires Inv(s) && Enabled(s, a)
    ensures Inv(Apply(s, a))
  {
    match a
    case Pick(e) =>
      var t := HandleAnswer(s, e);
      assert forall i: nat :: 1 <= i < t.step ==> Answered(t.responses, i) by {
        forall i: nat | 1 <= i < t.step ensures Answered(t.responses, i) {
          assert Answered(s.responses, i);
          assert Read(t.responses, i) == Read(s.responses, i);
        }
      }
    case Type(_) =>
    case Back =>
    case Forward =>
    case Finish =>
    case StartOver =>
  }

  lemma StepKeepsClean(s: State, a: Action)
    requires Inv(s) && Clean(s.responses) && Enabled(s, a)
    ensures Clean(Apply(s, a).responses)
  {
  }

  /** No enabled action changes the free-text question's slot: the glyph
      buttons are not shown at step 0, and restarting rewrites slot 0 with the
      null it already holds in a clean array. */
  lemma FirstSlotUntouched(s: State, a: Action)
    requires Inv(s) && Enabled(s, a) && (Clean(s.responses) || !a.StartOver?)
    ensures Read(Apply(s, a).responses, 0) == Read(s.responses, 0)
  {
  }

  /** Along any sequence of enabled actions the invariant holds throughout. */
  lemma {:induction false} TraceKeepsInv(s: State, acts: seq<Action>)
    requires Inv(s) && Trace(s, acts)
    ensures Inv(Run(s, acts))
    decreases |acts|
  {
    if acts != [] {
      StepKeepsInv(s, acts[0]);
      TraceKeepsInv(Apply(s, acts[0]), acts[1..]);
    }
  }

  lemma {:induction false} TraceKeepsClean(s: State, acts: seq<Action>)
    requires Inv(s) && Clean(s.responses) && Trace(s, acts)
    ensures Clean(Run(s, acts).responses)
    decreases |acts|
  {
    if acts != [] {
      StepKeepsInv(s, acts[0]);
      StepKeepsClean(s, acts[0]);
      TraceKeepsClean(Apply(s, acts[0]), acts[1..]);
    }
  }

  /** From mounting on, whatever the user does: the catalog lookup is in bounds,
      the completion screen implies a complete survey, and, when storage held a
      clean array or nothing, the responses stay clean. */
  lemma {:induction false} Reachable(saved: Option<Responses>, acts: seq<Action>)
    requires Trace(Mounted(saved), acts)
    ensures Inv(Run(Mounted(saved), acts))
    ensures Run(Mounted(saved), acts).finished ==> Complete(Run(Mounted(saved), acts))
    ensures (saved.None? || Clean(saved.value)) ==> Clean(Run(Mounted(saved), acts).responses)
  {
    var s := Mounted(saved);
    TraceKeepsInv(s, acts);
    if saved.None? || Clean(saved.value) {
      TraceKeepsClean(s, acts);
    }
  }
}
