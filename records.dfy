/** Heuristic records, their append-only per-field history, and the pure
    transforms that the record store applies to its list of records
    (`prev.map` / `prev.filter` in src/App.jsx). */
module Records {
  import opened Wrappers

  /** The fields a wizard step, `updateDraft` or `updateHeuristicField` can name.
      `id` and `history` are not among them: no operation assigns them by name. */
  datatype Field =
    | WhoElement      // step1_who_element
    | WhereParent     // step2_where_parent
    | Category        // step3a_category
    | Subcategory     // step3b_subcategory
    | ConditionType   // step4_condition_type
    | ConditionValue  // step4_condition_value
    | Action          // step5_action
    | Output          // step6_output
    | Status          // status

  /** The nine string-valued fields of a record; a draft is exactly this.
      A value the source leaves `undefined` or `null` is the empty string here. */
  datatype Fields = Fields(
    element: string,
    parent: string,
    category: string,
    subcategory: string,
    conditionType: string,
    conditionValue: string,
    action: string,
    output: string,
    status: string)
  {
    /** `h[fieldName]` */
    function Get(f: Field): string {
      match f
      case WhoElement => element
      case WhereParent => parent
      case Category => category
      case Subcategory => subcategory
      case ConditionType => conditionType
      case ConditionValue => conditionValue
      case Action => action
      case Output => output
      case Status => status
    }

    /** `{ ...h, [fieldName]: v }`: field `f` becomes `v`, every other field is kept. */
    function Set(f: Field, v: string): (r: Fields)
      ensures r.Get(f) == v
      ensures forall g :: g != f ==> r.Get(g) == Get(g)
    {
      match f
      case WhoElement => this.(element := v)
      case WhereParent => this.(parent := v)
      case Category => this.(category := v)
      case Subcategory => this.(subcategory := v)
      case ConditionType => this.(conditionType := v)
      case ConditionValue => this.(conditionValue := v)
      case Action => this.(action := v)
      case Output => this.(output := v)
      case Status => this.(status := v)
    }
  }

  /** Two field records that agree on every field are the same record. */
  lemma {:induction false} FieldsExtensional(a: Fields, b: Fields)
    requires forall g :: a.Get(g) == b.Get(g)
    ensures a == b
  {
    assert a.Get(WhoElement) == b.Get(WhoElement);
    assert a.Get(WhereParent) == b.Get(WhereParent);
    assert a.Get(Category) == b.Get(Category);
    assert a.Get(Subcategory) == b.Get(Subcategory);
    assert a.Get(ConditionType) == b.Get(ConditionType);
    assert a.Get(ConditionValue) == b.Get(ConditionValue);
    assert a.Get(Action) == b.Get(Action);
    assert a.Get(Output) == b.Get(Output);
    assert a.Get(Status) == b.Get(Status);
  }

  /** `INITIAL_HEURISTIC` without its `id: null` and `history: {}`. */
  const InitialDraft: Fields :=
    Fields("", "any", "", "", "none", "", "", "", "Active")

  /** One history entry `{timestamp, value, newValue, isRevert?, revertedFrom?}`;
      `revertedFrom` is `Some(i)` exactly when the entry was written by a revert. */
  datatype Entry = Entry(timestamp: string, value: string, newValue: string, revertedFrom: Option<int>)

  type History = map<Field, seq<Entry>>

  datatype Heuristic = Heuristic(id: string, fields: Fields, history: History)

  /** `history[fieldName] || []` */
  function FieldHistory(h: Heuristic, f: Field): seq<Entry> {
    if f in h.history then h.history[f] else []
  }

  /** `{ ...draft, id }`: the record `addHeuristic` builds locally. */
  function NewRecord(draft: Fields, id: string): (h: Heuristic)
    ensures h.id == id && h.fields == draft
    ensures forall g :: FieldHistory(h, g) == []
  {
    Heuristic(id, draft, map[])
  }

  /** Appends `e` to the history of `f` and sets `f` to `v`. */
  function Record(h: Heuristic, f: Field, v: string, e: Entry): (r: Heuristic)
    ensures r.id == h.id
    ensures r.fields == h.fields.Set(f, v)
    ensures FieldHistory(r, f) == FieldHistory(h, f) + [e]
    ensures forall g :: g != f ==> FieldHistory(r, g) == FieldHistory(h, g)
  {
    Heuristic(h.id, h.fields.Set(f, v), h.history[f := FieldHistory(h, f) + [e]])
  }

  /** The record transform inside `updateHeuristicField`. */
  function WithField(h: Heuristic, f: Field, v: string, now: string): (r: Heuristic)
    ensures r.id == h.id && r.fields.Get(f) == v
    ensures forall g :: g != f ==> r.fields.Get(g) == h.fields.Get(g)
    ensures FieldHistory(r, f) == FieldHistory(h, f) + [Entry(now, h.fields.Get(f), v, None)]
    ensures forall g :: g != f ==> FieldHistory(r, g) == FieldHistory(h, g)
  {
    Record(h, f, v, Entry(now, h.fields.Get(f), v, None))
  }

  /** The status the source records as the previous one: `h.status || 'Active'`. */
  function RecordedStatus(h: Heuristic): (s: string)
    ensures s != ""
    ensures h.fields.status != "" ==> s == h.fields.status
    ensures h.fields.status == "" ==> s == "Active"
  {
    if h.fields.status == "" then "Active" else h.fields.status
  }

  /** The record transform inside `updateStatus`; the new status is not validated. */
  function WithStatus(h: Heuristic, s: string, now: string): (r: Heuristic)
    ensures r.id == h.id && r.fields.status == s
    ensures forall g :: g != Status ==> r.fields.Get(g) == h.fields.Get(g)
    ensures FieldHistory(r, Status) == FieldHistory(h, Status) + [Entry(now, RecordedStatus(h), s, None)]
    ensures forall g :: g != Status ==> FieldHistory(r, g) == FieldHistory(h, g)
  {
    Record(h, Status, s, Entry(now, RecordedStatus(h), s, None))
  }

  /** The record transform inside `revertHeuristicField`: an index outside the
      field's history leaves the record as it is; otherwise the value the entry
      replaced comes back, through a new entry that marks the revert. */
  function Reverted(h: Heuristic, f: Field, index: int, now: string): (r: Heuristic)
    ensures !(0 <= index < |FieldHistory(h, f)|) ==> r == h
    ensures 0 <= index < |FieldHistory(h, f)| ==>
      var restored := FieldHistory(h, f)[index].value;
      && r.id == h.id
      && r.fields == h.fields.Set(f, restored)
      && FieldHistory(r, f) == FieldHistory(h, f) + [Entry(now, h.fields.Get(f), restored, Some(index))]
      && forall g :: g != f ==> FieldHistory(r, g) == FieldHistory(h, g)
  {
    var past := FieldHistory(h, f);
    if index < 0 || index >= |past| then h
    else
      var restored := past[index].value;
      Record(h, f, restored, Entry(now, h.fields.Get(f), restored, Some(index)))
  }

  // ---------------------------------------------------------------------------
  // History only grows

  predicate IsPrefix(a: seq<Entry>, b: seq<Entry>) {
    |a| <= |b| && b[..|a|] == a
  }

  /** `h'` is `h` after edits: same id, and every field's history has only been appended to. */
  predicate Extends(h: Heuristic, h': Heuristic) {
    h'.id == h.id && forall g :: IsPrefix(FieldHistory(h, g), FieldHistory(h', g))
  }

  lemma {:induction false} ExtendsTransitive(a: Heuristic, b: Heuristic, c: Heuristic)
    requires Extends(a, b) && Extends(b, c)
    ensures Extends(a, c)
  {
    forall g ensures IsPrefix(FieldHistory(a, g), FieldHistory(c, g)) {
      var x, y, z := FieldHistory(a, g), FieldHistory(b, g), FieldHistory(c, g);
      assert z[..|y|] == y;
      assert z[..|x|] == z[..|y|][..|x|];
    }
  }

  /** Every record transform of the store keeps the id and only appends history. */
  lemma {:induction false} TransformsExtend(h: Heuristic, f: Field, v: string, index: int, now: string)
    ensures Extends(h, WithField(h, f, v, now))
    ensures Extends(h, WithStatus(h, v, now))
    ensures Extends(h, Reverted(h, f, index, now))
  {
    var a, b, c := WithField(h, f, v, now), WithStatus(h, v, now), Reverted(h, f, index, now);
    forall g ensures IsPrefix(FieldHistory(h, g), FieldHistory(a, g)) {
      if g == f { assert FieldHistory(a, g)[..|FieldHistory(h, g)|] == FieldHistory(h, g); }
    }
    forall g ensures IsPrefix(FieldHistory(h, g), FieldHistory(b, g)) {
      if g == Status { assert FieldHistory(b, g)[..|FieldHistory(h, g)|] == FieldHistory(h, g); }
    }
    forall g ensures IsPrefix(FieldHistory(h, g), FieldHistory(c, g)) {
      if g == f { assert FieldHistory(c, g)[..|FieldHistory(h, g)|] == FieldHistory(h, g); }
    }
  }

  // ---------------------------------------------------------------------------
  // The list transforms

  /** `prev.map(h => h.id !== id ? h : transform(h))` */
  function MapId(hs: seq<Heuristic>, id: string, transform: Heuristic -> Heuristic): (r: seq<Heuristic>)
    ensures |r| == |hs|
    ensures forall i :: 0 <= i < |hs| && hs[i].id != id ==> r[i] == hs[i]
    ensures forall i :: 0 <= i < |hs| && hs[i].id == id ==> r[i] == transform(hs[i])
  {
    seq(|hs|, i requires 0 <= i < |hs| => if hs[i].id == id then transform(hs[i]) else hs[i])
  }

  /** Only the records with `id` change; every record keeps its place and its id. */
  function UpdateField(hs: seq<Heuristic>, id: string, f: Field, v: string, now: string): (r: seq<Heuristic>)
    ensures |r| == |hs|
    ensures forall i :: 0 <= i < |hs| ==> r[i].id == hs[i].id
    ensures !HasId(hs, id) ==> r == hs
  {
    MapId(hs, id, h => WithField(h, f, v, now))
  }

  /** Only the records with `id` change; every record keeps its place and its id. */
  function UpdateStatus(hs: seq<Heuristic>, id: string, s: string, now: string): (r: seq<Heuristic>)
    ensures |r| == |hs|
    ensures forall i :: 0 <= i < |hs| ==> r[i].id == hs[i].id
    ensures !HasId(hs, id) ==> r == hs
  {
    MapId(hs, id, h => WithStatus(h, s, now))
  }

  /** Only the records with `id` change; every record keeps its place and its id. */
  function RevertField(hs: seq<Heuristic>, id: string, f: Field, index: int, now: string): (r: seq<Heuristic>)
    ensures |r| == |hs|
    ensures forall i :: 0 <= i < |hs| ==> r[i].id == hs[i].id
    ensures !HasId(hs, id) ==> r == hs
  {
    MapId(hs, id, h => Reverted(h, f, index, now))
  }

  /** `prev.filter(h => h.id !== id)` */
  function RemoveId(hs: seq<Heuristic>, id: string): (r: seq<Heuristic>)
    ensures |r| <= |hs|
    ensures forall h :: h in r ==> h in hs && h.id != id
  {
    if hs == [] then []
    else if hs[0].id == id then RemoveId(hs[1..], id)
    else [hs[0]] + RemoveId(hs[1..], id)
  }

  predicate HasId(hs: seq<Heuristic>, id: string) {
    exists i :: 0 <= i < |hs| && hs[i].id == id
  }

  predicate UniqueIds(hs: seq<Heuristic>) {
    forall i, j :: 0 <= i < j < |hs| ==> hs[i].id != hs[j].id
  }

  /** Updating a field of the records with `id`: the field takes the new value,
      exactly one entry recording the old and the new value is appended to that
      field's history, and nothing else changes; an unknown id changes nothing. */
  lemma {:induction false} UpdateFieldSpec(hs: seq<Heuristic>, id: string, f: Field, v: string, now: string)
    ensures var r := UpdateField(hs, id, f, v, now);
      && |r| == |hs|
      && (!HasId(hs, id) ==> r == hs)
      && forall i :: 0 <= i < |hs| ==>
           if hs[i].id != id then r[i] == hs[i]
           else
             && r[i].id == id
             && r[i].fields.Get(f) == v
             && (forall g :: g != f ==> r[i].fields.Get(g) == hs[i].fields.Get(g))
             && FieldHistory(r[i], f) == FieldHistory(hs[i], f) + [Entry(now, hs[i].fields.Get(f), v, None)]
             && (forall g :: g != f ==> FieldHistory(r[i], g) == FieldHistory(hs[i], g))
  {
    var r := UpdateField(hs, id, f, v, now);
    if !HasId(hs, id) {
      assert forall i :: 0 <= i < |hs| ==> r[i] == hs[i];
    }
  }

  /** Updating the status records the previous status (`'Active'` when it was missing). */
  lemma {:induction false} UpdateStatusSpec(hs: seq<Heuristic>, id: string, s: string, now: string)
    ensures var r := UpdateStatus(hs, id, s, now);
      && |r| == |hs|
      && (!HasId(hs, id) ==> r == hs)
      && forall i :: 0 <= i < |hs| ==>
           if hs[i].id != id then r[i] == hs[i]
           else
             && r[i].id == id
             && r[i].fields.status == s
             && (forall g :: g != Status ==> r[i].fields.Get(g) == hs[i].fields.Get(g))
             && FieldHistory(r[i], Status) == FieldHistory(hs[i], Status)
                  + [Entry(now, if hs[i].fields.status == "" then "Active" else hs[i].fields.status, s, None)]
             && (forall g :: g != Status ==> FieldHistory(r[i], g) == FieldHistory(hs[i], g))
  {
    var r := UpdateStatus(hs, id, s, now);
    if !HasId(hs, id) {
      assert forall i :: 0 <= i < |hs| ==> r[i] == hs[i];
    }
  }

  /** Reverting to entry `index` of field `f`: the field gets back the value that
      entry replaced, one entry marked as a revert of `index` is appended and the
      earlier entries are untouched; an index outside the history, or an unknown
      id, changes nothing. */
  lemma {:induction false} RevertFieldSpec(hs: seq<Heuristic>, id: string, f: Field, index: int, now: string)
    ensures var r := RevertField(hs, id, f, index, now);
      && |r| == |hs|
      && (!HasId(hs, id) ==> r == hs)
      && forall i :: 0 <= i < |hs| ==>
           if hs[i].id != id || !(0 <= index < |FieldHistory(hs[i], f)|) then r[i] == hs[i]
           else
             var past := FieldHistory(hs[i], f);
             && r[i].id == id
             && r[i].fields.Get(f) == past[index].value
             && (forall g :: g != f ==> r[i].fields.Get(g) == hs[i].fields.Get(g))
             && |FieldHistory(r[i], f)| == |past| + 1
             && FieldHistory(r[i], f)[..|past|] == past
             && FieldHistory(r[i], f)[|past|] == Entry(now, hs[i].fields.Get(f), past[index].value, Some(index))
             && (forall g :: g != f ==> FieldHistory(r[i], g) == FieldHistory(hs[i], g))
  {
    var r := RevertField(hs, id, f, index, now);
    if !HasId(hs, id) {
      assert forall i :: 0 <= i < |hs| ==> r[i] == hs[i];
    }
    forall i | 0 <= i < |hs| && hs[i].id == id && 0 <= index < |FieldHistory(hs[i], f)|
      ensures FieldHistory(r[i], f)[..|FieldHistory(hs[i], f)|] == FieldHistory(hs[i], f)
    {
      assert FieldHistory(r[i], f) == FieldHistory(hs[i], f) + [FieldHistory(r[i], f)[|FieldHistory(hs[i], f)|]];
    }
  }

  /** A revert is itself an entry that can be reverted: reverting the entry a
      revert wrote restores the value the first revert replaced. */
  lemma {:induction false} RevertOfRevert(h: Heuristic, f: Field, index: int, now1: string, now2: string)
    requires 0 <= index < |FieldHistory(h, f)|
    ensures var once := Reverted(h, f, index, now1);
      var twice := Reverted(once, f, |FieldHistory(h, f)|, now2);
      && |FieldHistory(twice, f)| == |FieldHistory(h, f)| + 2
      && twice.fields.Get(f) == h.fields.Get(f)
      && FieldHistory(twice, f)[..|FieldHistory(h, f)|] == FieldHistory(h, f)
  {
    var once := Reverted(h, f, index, now1);
    var n := |FieldHistory(h, f)|;
    assert FieldHistory(once, f)[n].value == h.fields.Get(f);
    var twice := Reverted(once, f, n, now2);
    assert FieldHistory(twice, f)[..n] == FieldHistory(once, f)[..n + 1][..n];
  }

  /** `updateHeuristicField(id, f, v)` applied once for each value of `vs`, in order. */
  function UpdateMany(hs: seq<Heuristic>, id: string, f: Field, vs: seq<string>, now: string): (r: seq<Heuristic>)
    ensures |r| == |hs|
    decreases |vs|
  {
    if vs == [] then hs
    else UpdateMany(UpdateField(hs, id, f, vs[0], now), id, f, vs[1..], now)
  }

  /** After `n` successive updates of field `f` of record `id`, that field's
      history holds exactly `n` more entries, earlier entries unchanged, and the
      field holds the last value written. */
  lemma {:induction false} UpdateManySpec(hs: seq<Heuristic>, id: string, f: Field, vs: seq<string>, now: string, i: int)
    requires 0 <= i < |hs| && hs[i].id == id
    ensures var r := UpdateMany(hs, id, f, vs, now);
      && r[i].id == id
      && |FieldHistory(r[i], f)| == |FieldHistory(hs[i], f)| + |vs|
      && IsPrefix(FieldHistory(hs[i], f), FieldHistory(r[i], f))
      && (vs != [] ==> r[i].fields.Get(f) == vs[|vs| - 1])
      && (vs == [] ==> r[i].fields.Get(f) == hs[i].fields.Get(f))
    decreases |vs|
  {
    if vs != [] {
      var next := UpdateField(hs, id, f, vs[0], now);
      assert next[i] == WithField(hs[i], f, vs[0], now);
      UpdateManySpec(next, id, f, vs[1..], now, i);
      var r := UpdateMany(next, id, f, vs[1..], now);
      var a, b, c := FieldHistory(hs[i], f), FieldHistory(next[i], f), FieldHistory(r[i], f);
      assert b[..|a|] == a;
      assert c[..|a|] == c[..|b|][..|a|];
      if |vs| > 1 { assert vs[1..][|vs[1..]| - 1] == vs[|vs| - 1]; }
    }
  }

  // ---------------------------------------------------------------------------
  // Deletion

  function CountId(hs: seq<Heuristic>, id: string): nat {
    if hs == [] then 0 else (if hs[0].id == id then 1 else 0) + CountId(hs[1..], id)
  }

  /** Deleting keeps the other records in their original order: removal
      distributes over concatenation, and with an unknown id nothing is removed. */
  lemma {:induction false} RemoveIdAppend(a: seq<Heuristic>, b: seq<Heuristic>, id: string)
    ensures RemoveId(a + b, id) == RemoveId(a, id) + RemoveId(b, id)
    decreases |a|
  {
    if a != [] {
      assert (a + b)[1..] == a[1..] + b;
      RemoveIdAppend(a[1..], b, id);
    } else {
      assert a + b == b;
    }
  }

  lemma {:induction false} RemoveUnknownId(hs: seq<Heuristic>, id: string)
    requires !HasId(hs, id)
    ensures RemoveId(hs, id) == hs
    decreases |hs|
  {
    if hs != [] {
      assert forall k :: 0 <= k < |hs[1..]| ==> hs[1..][k] == hs[k + 1];
      RemoveUnknownId(hs[1..], id);
      assert hs == [hs[0]] + hs[1..];
    }
  }

  /** Deleting removes exactly the records with that id, as many as there are,
      and keeps every other record the number of times it occurred. */
  lemma {:induction false} RemoveIdCount(hs: seq<Heuristic>, id: string)
    ensures |RemoveId(hs, id)| == |hs| - CountId(hs, id)
    ensures forall h :: multiset(RemoveId(hs, id))[h] == if h.id == id then 0 else multiset(hs)[h]
    decreases |hs|
  {
    if hs != [] {
      RemoveIdCount(hs[1..], id);
      assert hs == [hs[0]] + hs[1..];
      assert multiset(hs) == multiset{hs[0]} + multiset(hs[1..]);
    }
  }

  lemma {:induction false} UniqueCountAtMostOne(hs: seq<Heuristic>, id: string)
    requires UniqueIds(hs)
    ensures CountId(hs, id) == if HasId(hs, id) then 1 else 0
    decreases |hs|
  {
    if hs != [] {
      assert UniqueIds(hs[1..]) by {
        forall i, j | 0 <= i < j < |hs[1..]| ensures hs[1..][i].id != hs[1..][j].id {
          assert hs[1..][i] == hs[i + 1] && hs[1..][j] == hs[j + 1];
        }
      }
      UniqueCountAtMostOne(hs[1..], id);
      assert forall k :: 0 <= k < |hs[1..]| ==> hs[1..][k] == hs[k + 1];
      if hs[0].id != id {
        assert HasId(hs, id) <==> HasId(hs[1..], id) by {
          if HasId(hs, id) {
            var i :| 0 <= i < |hs| && hs[i].id == id;
            assert i > 0 && hs[1..][i - 1].id == id;
          }
          if HasId(hs[1..], id) {
            var i :| 0 <= i < |hs[1..]| && hs[1..][i].id == id;
            assert hs[i + 1].id == id;
          }
        }
      }
    }
  }

  /** With unique ids, deleting a known id removes exactly one record and
      deleting an unknown id removes none. */
  lemma {:induction false} DeleteUniqueSpec(hs: seq<Heuristic>, id: string)
    requires UniqueIds(hs)
    ensures HasId(hs, id) ==> |RemoveId(hs, id)| == |hs| - 1
    ensures !HasId(hs, id) ==> RemoveId(hs, id) == hs
  {
    RemoveIdCount(hs, id);
    UniqueCountAtMostOne(hs, id);
    if !HasId(hs, id) { RemoveUnknownId(hs, id); }
  }

  /** Appending a record with a fresh id keeps ids unique. */
  lemma {:induction false} AppendFreshKeepsUnique(hs: seq<Heuristic>, h: Heuristic)
    requires UniqueIds(hs) && !HasId(hs, h.id)
    ensures UniqueIds(hs + [h])
  {
    var r := hs + [h];
    forall i, j | 0 <= i < j < |r| ensures r[i].id != r[j].id {
      if j == |hs| {
        assert r[i] == hs[i];
      } else {
        assert r[i] == hs[i] && r[j] == hs[j];
      }
    }
  }
}
