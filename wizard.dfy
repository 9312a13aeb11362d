/** The six-step wizard of `useWizard` and its per-step gate `canProceed`.
    A step change does not happen at once: the request takes the transition
    lock and schedules a callback 150 ms later that commits the new step and
    releases the lock. Time is not modelled; the scheduled callbacks are a
    queue of target steps, fired in the order they were scheduled. */
module Wizard {
  import opened Records

  /** `canProceed`: whether the draft completes the question of `step`. */
  function CanProceed(step: int, d: Fields): (ok: bool)
    ensures ok ==> 1 <= step <= 6
  {
    if step == 1 then d.element != ""
    else if step == 2 then d.parent != ""
    else if step == 3 then d.category != "" && d.subcategory != ""
    else if step == 4 then d.conditionType != ""
    else if step == 5 then d.action != ""
    else if step == 6 then d.output != ""
    else false
  }

  /** The initial draft already passes the gates of steps 2 and 4 (through its
      'any' parent and 'none' condition) and no other gate. */
  lemma {:induction false} InitialDraftGates()
    ensures forall s :: CanProceed(s, InitialDraft) <==> s == 2 || s == 4
  {
    forall s ensures CanProceed(s, InitialDraft) <==> s == 2 || s == 4 {
      if CanProceed(s, InitialDraft) { assert 1 <= s <= 6; }
    }
  }

  /** Leaving step 3 needs both halves of the type: a category alone does not pass. */
  lemma {:induction false} CategoryAloneDoesNotPass(d: Fields)
    requires d.subcategory == ""
    ensures !CanProceed(3, d)
  {
  }

  class Wizard {
    const totalSteps: int
    var step: int
    var isTransitioning: bool
    /** The targets of the callbacks scheduled and not yet fired, oldest first. */
    var pending: seq<int>

    /** A step the wizard can be at: 1 (where it starts and where `reset`
        sends it) or a step in 1..totalSteps. */
    predicate InRange(t: int) {
      t == 1 || 1 <= t <= totalSteps
    }

    ghost predicate Valid()
      reads this
    {
      && InRange(step)
      && (forall k :: 0 <= k < |pending| ==> InRange(pending[k]))
      && (isTransitioning ==> pending != [])
    }

    /** `useWizard(totalSteps)` */
    constructor (totalSteps: int)
      ensures Valid()
      ensures this.totalSteps == totalSteps
      ensures step == 1 && !isTransitioning && pending == []
    {
      this.totalSteps := totalSteps;
      step := 1;
      isTransitioning := false;
      pending := [];
    }

    /** The guard of `goToStep`: the target is a step and no transition holds the lock. */
    predicate Accepts(target: int)
      reads this
    {
      1 <= target <= totalSteps && !isTransitioning
    }

    /** `goToStep(target)`: an out-of-range target, or any request while the
        lock is held, is ignored; otherwise the lock is taken and the commit of
        `target` is scheduled. The step itself does not change yet. */
    method GoToStep(target: int)
      requires Valid()
      modifies this
      ensures Valid()
      ensures step == old(step)
      ensures old(Accepts(target)) ==> isTransitioning && pending == old(pending) + [target]
      ensures !old(Accepts(target)) ==> isTransitioning == old(isTransitioning) && pending == old(pending)
    {
      if target < 1 || target > totalSteps || isTransitioning {
        return;
      }
      isTransitioning := true;
      pending := pending + [target];
    }

    /** `nextStep()`; at the last step it does nothing. */
    method NextStep()
      requires Valid()
      modifies this
      ensures Valid()
      ensures step == old(step)
      ensures old(Accepts(step + 1)) ==> isTransitioning && pending == old(pending) + [old(step) + 1]
      ensures !old(Accepts(step + 1)) ==> isTransitioning == old(isTransitioning) && pending == old(pending)
      ensures old(step) >= totalSteps ==> isTransitioning == old(isTransitioning) && pending == old(pending)
    {
      GoToStep(step + 1);
    }

    /** `prevStep()`; at step 1 it does nothing. */
    method PrevStep()
      requires Valid()
      modifies this
      ensures Valid()
      ensures step == old(step)
      ensures old(Accepts(step - 1)) ==> isTransitioning && pending == old(pending) + [old(step) - 1]
      ensures !old(Accepts(step - 1)) ==> isTransitioning == old(isTransitioning) && pending == old(pending)
      ensures old(step) == 1 ==> isTransitioning == old(isTransitioning) && pending == old(pending)
    {
      GoToStep(step - 1);
    }

    /** `reset()`: takes the lock whether or not it was held, and schedules the
        commit of step 1. */
    method Reset()
      requires Valid()
      modifies this
      ensures Valid()
      ensures step == old(step) && isTransitioning
      ensures pending == old(pending) + [1]
    {
      isTransitioning := true;
      pending := pending + [1];
    }

    /** The oldest scheduled callback fires: it commits its step and releases the lock. */
    method TimerFires()
      requires Valid() && pending != []
      modifies this
      ensures Valid()
      ensures step == old(pending[0]) && pending == old(pending[1..]) && !isTransitioning
    {
      step := pending[0];
      pending := pending[1..];
      isTransitioning := false;
    }

    /** Every scheduled callback fires, in order: the wizard ends at the step
        scheduled last, with the lock released. */
    method Settle()
      requires Valid()
      modifies this
      ensures Valid()
      ensures pending == [] && !isTransitioning
      ensures step == if old(pending) == [] then old(step) else old(pending[|pending| - 1])
    {
      ghost var last := if pending == [] then step else pending[|pending| - 1];
      while pending != []
        invariant Valid()
        invariant pending == [] ==> step == last
        invariant pending != [] ==> pending[|pending| - 1] == last
        decreases |pending|
      {
        TimerFires();
      }
    }

    /** The Continue button: enabled only when `canProceed` holds, and then `nextStep()`. */
    method Continue(d: Fields)
      requires Valid()
      modifies this
      ensures Valid()
      ensures step == old(step)
      ensures CanProceed(old(step), d) && old(Accepts(step + 1)) ==>
                isTransitioning && pending == old(pending) + [old(step) + 1]
      ensures !(CanProceed(old(step), d) && old(Accepts(step + 1))) ==>
                isTransitioning == old(isTransitioning) && pending == old(pending)
    {
      if CanProceed(step, d) {
        NextStep();
      }
    }
  }

  /** However it was reached, `reset()` followed by the callbacks firing leaves
      the wizard at step 1 with the lock released. */
  method ResetEndsAtStepOne(w: Wizard)
    requires w.Valid()
    modifies w
    ensures w.Valid() && w.step == 1 && !w.isTransitioning && w.pending == []
  {
    w.Reset();
    w.Settle();
  }

  /** A user who fills in every question and presses Continue, letting each
      transition finish, walks from step 1 to step 6; there, `nextStep` is
      rejected. Returns the step reached and the step after one more `nextStep`. */
  method WalkThrough(d: Fields) returns (reached: int, afterMore: int)
    requires forall s :: 1 <= s <= 6 ==> CanProceed(s, d)
    ensures reached == 6 && afterMore == 6
  {
    var w := new Wizard(6);
    var k := 1;
    while k < 6
      invariant 1 <= k <= 6
      invariant w.Valid() && w.totalSteps == 6
      invariant w.step == k && !w.isTransitioning && w.pending == []
    {
      w.Continue(d);
      w.TimerFires();
      k := k + 1;
    }
    reached := w.step;
    w.NextStep();
    w.Settle();
    afterMore := w.step;
  }

  /** Pressing Continue at step 3 with a category but no subcategory leaves the wizard at step 3. */
  method StuckAtType(d: Fields) returns (stepAfter: int)
    requires d.category != "" && d.subcategory == ""
    ensures stepAfter == 3
  {
    var w := new Wizard(6);
    w.GoToStep(3);
    w.TimerFires();
    w.Continue(d);
    w.Settle();
    stepAfter := w.step;
  }
}
