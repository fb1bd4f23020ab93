/**
  The slide show the game binary runs (`GameState::advance`,
  src/main.rs:230-263): a start page, then each question's clues revealed one
  per key press, then an end page. `advance` reports whether the display must
  be rebuilt because a new question came up.
*/
module Game {
  import opened Loading

  /** Every question shows at most this many tiles: four clues and the connection. */
  const MaxShown := 5

  /** `Instant` is modelled as an abstract tick count supplied by the caller. */
  datatype QuestionState = QuestionState(startTime: int, cluesShown: nat)

  datatype Phase =
    | StartPage
    | Questions(current: nat, state: QuestionState)
    | EndPage

  datatype GameState = GameState(questions: seq<Question<string>>, timePerQuestion: nat, phase: Phase)

  /** A fresh question: started now, first clue shown. */
  function Fresh(now: int): QuestionState {
    QuestionState(now, 1)
  }

  /**
    One key press at time `now`. The flag is true exactly when a question
    comes up that was not on screen before; nothing but the phase changes.
  */
  function Advance(g: GameState, now: int): (r: (GameState, bool))
    ensures r.0.questions == g.questions && r.0.timePerQuestion == g.timePerQuestion
    ensures r.1 <==> r.0.phase.Questions? && (g.phase.Questions? ==> r.0.phase.current != g.phase.current)
  {
    match g.phase
    case StartPage =>
      (g.(phase := Questions(0, Fresh(now))), true)
    case Questions(current, state) =>
      if state.cluesShown < MaxShown then
        (g.(phase := Questions(current, state.(cluesShown := state.cluesShown + 1))), false)
      else if current + 1 < |g.questions| then
        (g.(phase := Questions(current + 1, Fresh(now))), true)
      else
        (g.(phase := EndPage), false)
    case EndPage =>
      (g, false)
  }

  /** The question on screen exists and shows between one and five tiles. */
  predicate Valid(g: GameState) {
    g.phase.Questions? ==>
      g.phase.current < |g.questions| && 1 <= g.phase.state.cluesShown <= MaxShown
  }

  /** Key presses still needed to reach the end page. */
  function Remaining(g: GameState): nat
    requires Valid(g)
  {
    match g.phase
    case StartPage => 1 + MaxShown * |g.questions|
    case Questions(current, state) =>
      (MaxShown - state.cluesShown) + 1 + MaxShown * (|g.questions| - 1 - current)
    case EndPage => 0
  }

  /**
    `Advance` with the empty question list handled: with nothing to show, the
    start page goes straight to the end page instead of opening question 0.
  */
  function AdvanceGuarded(g: GameState, now: int): (r: (GameState, bool))
    ensures Valid(g) ==> Valid(r.0)
    ensures g.questions != [] ==> r == Advance(g, now)
  {
    if g.phase.StartPage? && g.questions == [] then (g.(phase := EndPage), false)
    else Advance(g, now)
  }

  /** The state after one key press per instant in `nows`. */
  function Presses(g: GameState, nows: seq<int>): (r: GameState)
    ensures r.questions == g.questions
    decreases |nows|
  {
    if nows == [] then g else Presses(Advance(g, nows[0]).0, nows[1..])
  }

  // ---------------------------------------------------------------------------
  // Lemmas

  /** The first press leaves the start page for the first question's first clue, and rebuilds the display. */
  lemma StartShowsFirstClue(g: GameState, now: int)
    requires g.phase.StartPage?
    ensures Advance(g, now).0.phase == Questions(0, QuestionState(now, 1)) && Advance(g, now).1
  {
  }

  /** A press on a question with tiles still hidden reveals the next one, keeps the start time and rebuilds nothing. */
  lemma RevealNext(g: GameState, now: int)
    requires g.phase.Questions? && g.phase.state.cluesShown < MaxShown
    ensures var p := Advance(g, now).0.phase;
      && p.Questions? && p.current == g.phase.current
      && p.state.cluesShown == g.phase.state.cluesShown + 1
      && p.state.startTime == g.phase.state.startTime
      && !Advance(g, now).1
  {
  }

  /**
    A press on a fully revealed question moves to the next question, started
    now, when there is one, and to the end page otherwise.
  */
  lemma NextQuestionOrEnd(g: GameState, now: int)
    requires g.phase.Questions? && MaxShown <= g.phase.state.cluesShown
    ensures g.phase.current + 1 < |g.questions| ==>
      Advance(g, now).0.phase == Questions(g.phase.current + 1, QuestionState(now, 1))
    ensures g.phase.current + 1 >= |g.questions| ==> Advance(g, now).0.phase == EndPage
  {
  }

  /** The end page is final: no number of presses leaves it. */
  lemma {:induction false} EndPageAbsorbs(g: GameState, nows: seq<int>)
    requires g.phase.EndPage?
    ensures Presses(g, nows) == g
    decreases |nows|
  {
    if nows != [] {
      EndPageAbsorbs(Advance(g, nows[0]).0, nows[1..]);
    }
  }

  /** With at least one question, a press keeps the state valid. */
  lemma AdvanceValid(g: GameState, now: int)
    requires |g.questions| > 0 && Valid(g)
    ensures Valid(Advance(g, now).0)
  {
  }

  /** Every press before the end page brings the end page exactly one press closer. */
  lemma AdvanceProgress(g: GameState, now: int)
    requires |g.questions| > 0 && Valid(g) && !g.phase.EndPage?
    ensures Valid(Advance(g, now).0) && Remaining(Advance(g, now).0) == Remaining(g) - 1
  {
  }

  /** Valid states are those whose count of remaining presses is zero exactly at the end page. */
  lemma RemainingZeroIff(g: GameState)
    requires |g.questions| > 0 && Valid(g)
    ensures Remaining(g) == 0 <==> g.phase.EndPage?
  {
  }

  /**
    From a valid state, a run of presses ends on the end page exactly when it
    is at least as long as the presses remaining, and every state it passes
    through is valid.
  */
  lemma {:induction false} PressesReachEndIff(g: GameState, nows: seq<int>)
    requires |g.questions| > 0 && Valid(g)
    ensures Valid(Presses(g, nows))
    ensures Presses(g, nows).phase.EndPage? <==> |nows| >= Remaining(g)
    decreases |nows|
  {
    if nows == [] {
      RemainingZeroIff(g);
    } else if g.phase.EndPage? {
      EndPageAbsorbs(g, nows);
    } else {
      AdvanceProgress(g, nows[0]);
      PressesReachEndIff(Advance(g, nows[0]).0, nows[1..]);
    }
  }

  /** A game of `n` questions takes exactly `1 + 5 * n` presses from the start page to the end page. */
  lemma WholeGame(g: GameState, nows: seq<int>)
    requires |g.questions| > 0 && g.phase.StartPage?
    ensures Presses(g, nows).phase.EndPage? <==> |nows| >= 1 + MaxShown * |g.questions|
  {
    PressesReachEndIff(g, nows);
  }

  /**
    With no questions, the first press still opens question 0, which does not
    exist: the display code that indexes the question list cannot draw it.
  */
  lemma NoQuestionsShowsMissing(g: GameState, now: int)
    requires g.questions == [] && g.phase.StartPage?
    ensures Advance(g, now).0.phase.Questions? && !Valid(Advance(g, now).0)
  {
  }

  /** With the guard, every press from every valid state keeps the state valid, the empty question list included. */
  lemma AdvanceGuardedValid(g: GameState, now: int)
    requires Valid(g)
    ensures Valid(AdvanceGuarded(g, now).0)
    ensures g.questions == [] && g.phase.StartPage? ==> AdvanceGuarded(g, now).0.phase.EndPage?
  {
  }
}
