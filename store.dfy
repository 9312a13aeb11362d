/** The heuristic record store of `useHeuristics`: the state cells `heuristics`,
    `draft` and `error`, replaced operation by operation. The remote collection
    is an oracle: each operation that talks to it receives the outcome it
    reported. Whatever the outcome, the local change happens. */
module Store {
  import opened Wrappers
  import opened Records

  /** What the remote `createHeuristic` call reported. */
  datatype CreateOutcome = Created(record: Heuristic) | CreateFailed(message: string)

  /** What a remote `updateHeuristic` or `deleteHeuristic` call reported. */
  datatype SyncOutcome = Synced | SyncFailed(message: string)

  /** The draft may be committed: element and action are both filled in. */
  predicate Committable(draft: Fields) {
    draft.element != "" && draft.action != ""
  }

  /** The error `deleteHeuristic` reports: a failure other than 'NOT_CONFIGURED'. */
  function DeleteError(outcome: SyncOutcome): (e: Option<string>)
    ensures e.Some? <==> outcome.SyncFailed? && outcome.message != "NOT_CONFIGURED"
    ensures e.Some? ==> e.value == "Failed to delete from Wix CMS: " + outcome.message
  {
    match outcome
    case Synced => None
    case SyncFailed(m) => if m == "NOT_CONFIGURED" then None else Some("Failed to delete from Wix CMS: " + m)
  }

  class HeuristicStore {
    /** `wixCMS.isWixConfigured()`, fixed at start-up. */
    const configured: bool
    var heuristics: seq<Heuristic>
    var draft: Fields
    var error: Option<string>

    constructor (configured: bool)
      ensures this.configured == configured
      ensures heuristics == [] && draft == InitialDraft && error == None
    {
      this.configured := configured;
      heuristics := [];
      draft := InitialDraft;
      error := None;
    }

    /** `updateDraft(field, value)` */
    method UpdateDraft(f: Field, v: string)
      modifies this
      ensures draft.Get(f) == v
      ensures forall g :: g != f ==> draft.Get(g) == old(draft.Get(g))
      ensures heuristics == old(heuristics) && error == old(error)
    {
      draft := draft.Set(f, v);
    }

    /** `resetDraft()` */
    method ResetDraft()
      modifies this
      ensures draft == InitialDraft
      ensures heuristics == old(heuristics) && error == old(error)
    {
      draft := InitialDraft;
    }

    /** `addHeuristic()`: an incomplete draft is refused with nothing changed;
        otherwise exactly one record is appended at the end (the remote copy when
        the remote create succeeded, else the draft under `freshId`) and the
        draft is reset. */
    method AddHeuristic(outcome: CreateOutcome, freshId: string) returns (added: bool)
      modifies this
      ensures added == Committable(old(draft))
      ensures !added ==> heuristics == old(heuristics) && draft == old(draft) && error == old(error)
      ensures added ==> draft == InitialDraft
      ensures added ==> |heuristics| == |old(heuristics)| + 1 && heuristics[..|old(heuristics)|] == old(heuristics)
      ensures added ==> heuristics[|old(heuristics)|] ==
                        (if configured && outcome.Created? then outcome.record else NewRecord(old(draft), freshId))
      ensures added ==> error ==
                        (if configured && outcome.CreateFailed? then Some("Failed to save to Wix CMS: " + outcome.message) else None)
    {
      if draft.element == "" || draft.action == "" {
        return false;
      }
      error := None;
      var record := NewRecord(draft, freshId);
      if configured {
        match outcome
        case Created(r) =>
          record := r;
        case CreateFailed(m) =>
          error := Some("Failed to save to Wix CMS: " + m);
      }
      heuristics := heuristics + [record];
      draft := InitialDraft;
      assert heuristics[..|old(heuristics)|] == old(heuristics);
      return true;
    }

    /** `deleteHeuristic(id)`: every record with that id leaves the list, the
        others stay in order; the remote failure, if any, is only reported. */
    method DeleteHeuristic(id: string, outcome: SyncOutcome)
      modifies this
      ensures heuristics == RemoveId(old(heuristics), id)
      ensures error == if configured then DeleteError(outcome) else None
      ensures draft == old(draft)
    {
      error := None;
      if configured {
        error := DeleteError(outcome);
      }
      heuristics := RemoveId(heuristics, id);
    }

    /** `updateStatus(id, newStatus)`. It does not clear an earlier error; the
        remote call is made only when the id was in the list. */
    method UpdateStatus(id: string, newStatus: string, now: string, outcome: SyncOutcome)
      modifies this
      ensures heuristics == Records.UpdateStatus(old(heuristics), id, newStatus, now)
      ensures error ==
        if configured && HasId(old(heuristics), id) && outcome.SyncFailed?
        then Some("Failed to sync status to Wix CMS: " + outcome.message)
        else old(error)
      ensures draft == old(draft)
    {
      var found := HasId(heuristics, id);
      heuristics := Records.UpdateStatus(heuristics, id, newStatus, now);
      if configured && found && outcome.SyncFailed? {
        error := Some("Failed to sync status to Wix CMS: " + outcome.message);
      }
    }

    /** `updateHeuristicField(id, fieldName, newValue)` */
    method UpdateHeuristicField(id: string, f: Field, v: string, now: string, outcome: SyncOutcome)
      modifies this
      ensures heuristics == UpdateField(old(heuristics), id, f, v, now)
      ensures error ==
        if configured && HasId(old(heuristics), id) && outcome.SyncFailed?
        then Some("Failed to sync to Wix CMS: " + outcome.message)
        else None
      ensures draft == old(draft)
    {
      error := None;
      var found := HasId(heuristics, id);
      heuristics := UpdateField(heuristics, id, f, v, now);
      if configured && found && outcome.SyncFailed? {
        error := Some("Failed to sync to Wix CMS: " + outcome.message);
      }
    }

    /** `revertHeuristicField(id, fieldName, historyIndex)`: purely local. */
    method RevertHeuristicField(id: string, f: Field, index: int, now: string)
      modifies this
      ensures heuristics == RevertField(old(heuristics), id, f, index, now)
      ensures draft == old(draft) && error == old(error)
    {
      heuristics := RevertField(heuristics, id, f, index, now);
    }
  }
}
