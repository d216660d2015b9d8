/**
 * The four-step creator (`ExamCreator`): basic information, questions,
 * layout, then the preview. The step bar's buttons and each page's Next and
 * Back buttons move between the steps.
 */
module Wizard {

  /** A step number: 1 to 4. */
  predicate ValidStep(s: int) {
    1 <= s <= 4
  }

  /** A click on step button `step`, or a page's "Next" or "Back" button. */
  datatype Event = Next | Back | Click(step: int)

  /** `StepItem`: disabled unless completed (`current > step`) or active (`current === step`). */
  predicate StepDisabled(step: int, current: int) {
    !(current > step) && !(current == step)
  }

  /** A step button is disabled exactly when it lies ahead of the current step. */
  lemma StepDisabledAhead(step: int, current: int)
    ensures StepDisabled(step, current) <==> step > current
  {
  }

  /**
   * The step after an event. Steps 1-3 have a Next button (step 2's is
   * disabled without questions), steps 2-4 a Back button; a step button
   * moves to its own step unless disabled; the bar has buttons 1 to 4 only.
   */
  function Transition(current: int, e: Event, hasQuestions: bool): (r: int)
    ensures ValidStep(current) ==> ValidStep(r)
    ensures e.Click? ==> r == current || (ValidStep(e.step) && e.step < current && r == e.step)
  {
    match e
    case Next =>
      if current == 1 then 2
      else if current == 2 then (if hasQuestions then 3 else 2)
      else if current == 3 then 4
      else current
    case Back =>
      if current == 2 then 1
      else if current == 3 then 2
      else if current == 4 then 3
      else current
    case Click(s) =>
      if ValidStep(s) && !StepDisabled(s, current) then s else current
  }

  /** What the page shows for a step: a form for steps 1-3, the preview at step 4. */
  datatype View = BasicInfoForm | QuestionsForm | LayoutForm | PreviewPage

  function ViewOf(current: int): (v: View)
    requires ValidStep(current)
    ensures v == PreviewPage <==> current == 4
  {
    if current == 1 then BasicInfoForm
    else if current == 2 then QuestionsForm
    else if current == 3 then LayoutForm
    else PreviewPage
  }

  /** Every event keeps the step in 1..4; Next moves at most one step forward, clicks and Back never move forward. */
  lemma TransitionBounds(current: int, e: Event, hasQuestions: bool)
    requires ValidStep(current)
    ensures ValidStep(Transition(current, e, hasQuestions))
    ensures e.Next? ==> current <= Transition(current, e, hasQuestions) <= current + 1
    ensures !e.Next? ==> Transition(current, e, hasQuestions) <= current
    ensures e.Next? && current < 4 && (current != 2 || hasQuestions) ==> Transition(current, e, hasQuestions) == current + 1
    ensures e.Back? && current > 1 ==> Transition(current, e, hasQuestions) == current - 1
  {
  }

  /** A session: each event with whether the store held a question at that moment. */
  function Run(current: int, es: seq<(Event, bool)>): int
    decreases |es|
  {
    if es == [] then current else Run(Transition(current, es[0].0, es[0].1), es[1..])
  }

  function CountNext(es: seq<(Event, bool)>): nat
    decreases |es|
  {
    if es == [] then 0 else (if es[0].0.Next? then 1 else 0) + CountNext(es[1..])
  }

  /**
   * From any step, a session stays within 1..4 and gets at most one step
   * ahead per Next: forward progress comes from Next only.
   */
  lemma {:induction false} RunBounds(current: int, es: seq<(Event, bool)>)
    requires ValidStep(current)
    ensures ValidStep(Run(current, es))
    ensures Run(current, es) <= current + CountNext(es)
    decreases |es|
  {
    if es != [] {
      TransitionBounds(current, es[0].0, es[0].1);
      RunBounds(Transition(current, es[0].0, es[0].1), es[1..]);
    }
  }

  /** The creator opens at step 1, so the preview needs at least three Next presses. */
  lemma PreviewNeedsThreeNexts(es: seq<(Event, bool)>)
    requires Run(1, es) == 4
    ensures CountNext(es) >= 3
  {
    RunBounds(1, es);
  }
}
