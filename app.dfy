/** The glue in `App` between the record store and the wizard: committing the
    draft from the last step and sending the wizard back to its first step. */
module AppFlow {
  import opened Wrappers
  import opened Records
  import opened Store
  import opened Wizard

  /** The store's commit guard is the conjunction of the wizard's gates for the
      element question (step 1) and the action question (step 5). */
  lemma {:induction false} CommitGuardIsTwoGates(d: Fields)
    ensures Committable(d) <==> CanProceed(1, d) && CanProceed(5, d)
  {
  }

  /** `handleAddHeuristic`: when `addHeuristic` reports success, the draft is
      reset and the wizard is sent back to step 1 (a transition is scheduled). */
  method HandleAddHeuristic(store: HeuristicStore, w: Wizard, outcome: CreateOutcome, freshId: string)
    requires w.Valid()
    modifies store, w
    ensures w.Valid()
    ensures Committable(old(store.draft)) ==>
      && store.draft == InitialDraft
      && store.heuristics == old(store.heuristics) + [
           if store.configured && outcome.Created? then outcome.record else NewRecord(old(store.draft), freshId)]
      && store.error ==
           (if store.configured && outcome.CreateFailed? then Some("Failed to save to Wix CMS: " + outcome.message) else None)
      && w.step == old(w.step) && w.isTransitioning && w.pending == old(w.pending) + [1]
    ensures !Committable(old(store.draft)) ==>
      && store.heuristics == old(store.heuristics) && store.draft == old(store.draft)
      && store.error == old(store.error)
      && w.step == old(w.step) && w.isTransitioning == old(w.isTransitioning) && w.pending == old(w.pending)
  {
    var success := store.AddHeuristic(outcome, freshId);
    if success {
      store.ResetDraft();
      w.Reset();
    }
  }

  /** A user answers all six questions of a fresh wizard with no remote
      collection configured and commits: the library then holds exactly the
      answers under the new id, with status Active and no history, the draft
      is blank again and the wizard is back at step 1. */
  method CommitFreshDraft(d: Fields, freshId: string) returns (library: seq<Heuristic>, draftAfter: Fields, stepAfter: int)
    requires forall s :: 1 <= s <= 6 ==> CanProceed(s, d)
    requires d.status == "Active"
    ensures |library| == 1
    ensures library[0].id == freshId && library[0].fields == d
    ensures library[0].fields.status == "Active"
    ensures forall f :: FieldHistory(library[0], f) == []
    ensures draftAfter == InitialDraft && stepAfter == 1
  {
    var store := new HeuristicStore(false);
    var w := new Wizard(6);
    store.UpdateDraft(WhoElement, d.element);
    store.UpdateDraft(WhereParent, d.parent);
    store.UpdateDraft(Category, d.category);
    store.UpdateDraft(Subcategory, d.subcategory);
    store.UpdateDraft(ConditionType, d.conditionType);
    store.UpdateDraft(ConditionValue, d.conditionValue);
    store.UpdateDraft(Action, d.action);
    store.UpdateDraft(Output, d.output);
    FieldsExtensional(store.draft, d);
    var k := 1;
    while k < 6
      invariant 1 <= k <= 6
      invariant w.Valid() && w.totalSteps == 6
      invariant w.step == k && !w.isTransitioning && w.pending == []
      invariant store.draft == d && store.heuristics == [] && !store.configured
    {
      w.Continue(store.draft);
      w.TimerFires();
      k := k + 1;
    }
    assert CanProceed(1, d) && CanProceed(5, d);
    HandleAddHeuristic(store, w, CreateFailed("NOT_CONFIGURED"), freshId);
    w.Settle();
    library := store.heuristics;
    draftAfter := store.draft;
    stepAfter := w.step;
  }
}
