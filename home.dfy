/**
 The `Home` component as an object. Its fields are the four state variables and
 an abstract mirror of the persisted `satisfaction_responses` key. Each method is
 one user action together with the persist effect it triggers. Its precondition
 is the interface guard that lets the action fire, its body is the handler with
 the handler's own guard, and its postcondition ties the new state to the
 handler function of the Wizard module.
 */
module Page {
  import opened Catalog
  import Wizard

  class Home {
    var currentStep: nat
    var responses: Wizard.Responses
    var textResponse: string
    var finished: bool
    /** What storage holds under the responses key, once decoded. */
    var stored: Wizard.Responses

    /** The component's state as a value. */
    ghost function State(): Wizard.State
      reads this
    {
      Wizard.State(currentStep, responses, textResponse, finished)
    }

    /** The wizard invariant, and storage mirrors `responses`. */
    ghost predicate Valid()
      reads this
    {
      Wizard.Inv(State()) && stored == responses
    }

    /** Mounting: the initial state, then the rehydrate effect with what storage
        held, then the persist effect it triggers. */
    constructor Mount(saved: Wizard.Option<Wizard.Responses>)
      ensures Valid()
      ensures State() == Wizard.Mounted(saved)
      ensures saved.Some? ==> responses == saved.value && stored == saved.value
      ensures (saved.None? || Wizard.Clean(saved.value)) ==> Wizard.Clean(responses)
    {
      currentStep := 0;
      responses := Wizard.Blank();
      textResponse := "";
      finished := false;
      if saved.Some? {
        responses := saved.value;
      }
      stored := responses;
    }

    /** The question shown, `questions[currentStep]`; always in bounds. */
    method CurrentQuestion() returns (q: Question)
      requires Valid()
      ensures q == Questions[currentStep]
      ensures q.kind == Text <==> currentStep == 0
    {
      q := Questions[currentStep];
    }

    /** A click on one of the glyph buttons. */
    method HandleAnswer(emoji: string)
      requires Valid() && Wizard.Enabled(State(), Wizard.Pick(emoji))
      modifies this
      ensures Valid()
      ensures State() == Wizard.HandleAnswer(old(State()), emoji)
      ensures old(Wizard.Clean(responses)) ==> Wizard.Clean(responses)
      ensures stored == responses
    {
      Wizard.StepKeepsInv(State(), Wizard.Pick(emoji));
      if Wizard.Clean(responses) {
        Wizard.StepKeepsClean(State(), Wizard.Pick(emoji));
      }
      var updated := Wizard.Record(responses, currentStep, emoji);
      responses := updated;
      stored := responses;
    }

    /** A click on "Próximo". */
    method NextStep()
      requires Valid() && Wizard.NextEnabled(State())
      modifies this
      ensures Valid()
      ensures State() == Wizard.NextStep(old(State()))
      ensures currentStep == old(currentStep) + 1
      ensures stored == old(stored)
    {
      if currentStep < N - 1 {
        currentStep := currentStep + 1;
      }
    }

    /** A click on "Voltar". */
    method PrevStep()
      requires Valid() && Wizard.BackEnabled(State())
      modifies this
      ensures Valid()
      ensures State() == Wizard.PrevStep(old(State()))
      ensures currentStep == old(currentStep) - 1
      ensures stored == old(stored)
    {
      if currentStep > 0 {
        currentStep := currentStep - 1;
      }
    }

    /** A click on "Finalizar". */
    method HandleFinish()
      requires Valid() && Wizard.FinishEnabled(State())
      modifies this
      ensures Valid()
      ensures State() == Wizard.HandleFinish(old(State()))
      ensures Wizard.Complete(State())
      ensures stored == old(stored)
    {
      finished := true;
      Wizard.FinishedIsComplete(State());
    }

    /** A click on "Voltar ao início": every state variable is reset, and the
        persist effect overwrites storage with the blank array. */
    method Restart()
      requires Valid() && Wizard.RestartEnabled(State())
      modifies this
      ensures Valid()
      ensures State() == Wizard.Restart(old(State())) && State() == Wizard.Initial()
      ensures Wizard.Clean(responses)
      ensures stored == Wizard.Blank()
    {
      finished := false;
      currentStep := 0;
      responses := Wizard.Blank();
      textResponse := "";
      stored := responses;
    }

    /** A change of the text field. */
    method SetTextResponse(value: string)
      requires Valid() && Wizard.ShowsTextField(State())
      modifies this
      ensures Valid()
      ensures State() == Wizard.EditText(old(State()), value)
      ensures stored == old(stored)
    {
      textResponse := value;
    }
  }

  /** The opening of the survey, as a client sees it: the free-text answer lets
      the user advance, an unanswered rated question does not. */
  method Opening() returns (home: Home)
    ensures home.Valid() && home.currentStep == 1 && home.textResponse == "Great service"
  {
    home := new Home.Mount(Wizard.None);
    home.SetTextResponse("Great service");
    home.NextStep();
    assert !Wizard.NextEnabled(home.State());
    home.HandleAnswer(Answers[3]);
    home.PrevStep();
    home.NextStep();
  }

  /** The close of the survey: answering the last question and finishing, then
      restarting from the completion screen. */
  method Closing(home: Home)
    requires home.Valid() && home.currentStep == N - 1 && !home.finished
    modifies home
    ensures home.State() == Wizard.Initial() && home.stored == Wizard.Blank()
  {
    home.HandleAnswer(Answers[0]);
    home.HandleFinish();
    assert home.finished && Wizard.Complete(home.State());
    home.Restart();
  }
}
