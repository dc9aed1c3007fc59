/**
 * The wheel's named item lists (`ListGroup`) and the transforms its handlers apply to the
 * collection: active-group resolution, the `map` of `updateItems` and `saveEditingName`,
 * and the `filter` of `deleteGroup`.
 */
module ListGroups {
  import opened Wrappers
  import opened Seqs
  import opened Text

  datatype ListGroup = ListGroup(id: string, name: string, items: seq<string>)

  predicate HasId(gs: seq<ListGroup>, id: string) {
    exists i :: 0 <= i < |gs| && gs[i].id == id
  }

  predicate UniqueIds(gs: seq<ListGroup>) {
    forall i, j :: 0 <= i < j < |gs| ==> gs[i].id != gs[j].id
  }

  /** The state the store keeps: at least one group, distinct ids, and an active id that names one of them. */
  predicate ValidStore(gs: seq<ListGroup>, active: string) {
    |gs| >= 1 && UniqueIds(gs) && HasId(gs, active)
  }

  /** `gs.find(g => g.id === id)`, as the index of the first group with that id. */
  function FindIndex(gs: seq<ListGroup>, id: string): (r: Option<nat>)
    ensures r.Some? ==> r.value < |gs| && gs[r.value].id == id
    ensures r.Some? ==> forall j :: 0 <= j < r.value ==> gs[j].id != id
    ensures r.None? <==> !HasId(gs, id)
  {
    if gs == [] then None
    else if gs[0].id == id then Some(0)
    else match FindIndex(gs[1..], id)
      case None =>
        assert forall i :: 1 <= i < |gs| ==> gs[i] == gs[1..][i - 1];
        None
      case Some(k) => Some(k + 1)
  }

  /** `gs.find(g => g.id === active) || gs[0]`: the group on display, falling back to the first. */
  function ActiveIndex(gs: seq<ListGroup>, active: string): (k: nat)
    requires |gs| > 0
    ensures k < |gs|
    ensures HasId(gs, active) ==> gs[k].id == active && forall j :: 0 <= j < k ==> gs[j].id != active
    ensures !HasId(gs, active) ==> k == 0
  {
    match FindIndex(gs, active)
    case Some(k) => k
    case None => 0
  }

  /** `activeGroup?.items || []`: the items on the wheel. */
  function ActiveItems(gs: seq<ListGroup>, active: string): seq<string> {
    if gs == [] then [] else gs[ActiveIndex(gs, active)].items
  }

  /** The wheel shows the items of the first group with the active id, or of the first group when none has it. */
  lemma ActiveItemsShown(gs: seq<ListGroup>, active: string)
    ensures HasId(gs, active) ==> ActiveItems(gs, active) == gs[FindIndex(gs, active).value].items
    ensures !HasId(gs, active) ==> ActiveItems(gs, active) == if gs == [] then [] else gs[0].items
  {
  }

  /** The `prev.map(...)` of `updateItems`: every group with the id gets the new items. */
  function SetItems(gs: seq<ListGroup>, id: string, xs: seq<string>): (r: seq<ListGroup>)
    ensures |r| == |gs|
    ensures forall i :: 0 <= i < |gs| ==> r[i].id == gs[i].id && r[i].name == gs[i].name
    ensures forall i :: 0 <= i < |gs| ==> r[i].items == if gs[i].id == id then xs else gs[i].items
  {
    if gs == [] then []
    else [if gs[0].id == id then gs[0].(items := xs) else gs[0]] + SetItems(gs[1..], id, xs)
  }

  /** The `prev.map(...)` of `saveEditingName`: every group with the id gets the new name. */
  function SetName(gs: seq<ListGroup>, id: string, name: string): (r: seq<ListGroup>)
    ensures |r| == |gs|
    ensures forall i :: 0 <= i < |gs| ==> r[i].id == gs[i].id && r[i].items == gs[i].items
    ensures forall i :: 0 <= i < |gs| ==> r[i].name == if gs[i].id == id then name else gs[i].name
  {
    if gs == [] then []
    else [if gs[0].id == id then gs[0].(name := name) else gs[0]] + SetName(gs[1..], id, name)
  }

  /** The `prev.filter(g => g.id !== id)` of `deleteGroup`. */
  function RemoveById(gs: seq<ListGroup>, id: string): (r: seq<ListGroup>)
    ensures |r| <= |gs|
    ensures forall g :: g in r <==> g in gs && g.id != id
  {
    if gs == [] then []
    else if gs[0].id == id then RemoveById(gs[1..], id)
    else [gs[0]] + RemoveById(gs[1..], id)
  }

  /** Rewriting an id's items or name keeps every id where it was, so the store stays valid. */
  lemma SetItemsKeepsStore(gs: seq<ListGroup>, active: string, id: string, xs: seq<string>)
    requires ValidStore(gs, active)
    ensures ValidStore(SetItems(gs, id, xs), active)
  {
    var k := ActiveIndex(gs, active);
    assert SetItems(gs, id, xs)[k].id == active;
  }

  lemma SetNameKeepsStore(gs: seq<ListGroup>, active: string, id: string, name: string)
    requires ValidStore(gs, active)
    ensures ValidStore(SetName(gs, id, name), active)
  {
    var k := ActiveIndex(gs, active);
    assert SetName(gs, id, name)[k].id == active;
  }

  /** A rename leaves the items on display as they were. */
  lemma SetNameKeepsItems(gs: seq<ListGroup>, active: string, id: string, name: string)
    requires ValidStore(gs, active)
    ensures ActiveItems(SetName(gs, id, name), active) == ActiveItems(gs, active)
  {
    var r := SetName(gs, id, name);
    SameIdsSameActive(gs, r, active);
  }

  /** In a valid store, updating the active id's items changes exactly what the wheel shows. */
  lemma SetActiveItemsShows(gs: seq<ListGroup>, active: string, xs: seq<string>)
    requires ValidStore(gs, active)
    ensures ActiveItems(SetItems(gs, active, xs), active) == xs
    ensures ActiveIndex(SetItems(gs, active, xs), active) == ActiveIndex(gs, active)
  {
    var r := SetItems(gs, active, xs);
    SameIdsSameActive(gs, r, active);
  }

  /** The group on display depends only on the ids, in order. */
  lemma SameIdsSameActive(gs: seq<ListGroup>, r: seq<ListGroup>, active: string)
    requires ValidStore(gs, active)
    requires |r| == |gs| && forall i :: 0 <= i < |gs| ==> r[i].id == gs[i].id
    ensures HasId(r, active) && ActiveIndex(r, active) == ActiveIndex(gs, active)
  {
    var k := ActiveIndex(gs, active);
    assert r[k].id == active;
    var k' := ActiveIndex(r, active);
    assert gs[k'].id == active;
  }

  /** An update aimed at an id no group has changes nothing. */
  lemma SetItemsMissingId(gs: seq<ListGroup>, id: string, xs: seq<string>)
    requires !HasId(gs, id)
    ensures SetItems(gs, id, xs) == gs
  {
    var r := SetItems(gs, id, xs);
    forall i | 0 <= i < |gs| ensures r[i] == gs[i] {
      assert gs[i].id != id;
    }
  }

  /** A rename aimed at an id no group has changes nothing. */
  lemma SetNameMissingId(gs: seq<ListGroup>, id: string, name: string)
    requires !HasId(gs, id)
    ensures SetName(gs, id, name) == gs
  {
    var r := SetName(gs, id, name);
    forall i | 0 <= i < |gs| ensures r[i] == gs[i] {
      assert gs[i].id != id;
    }
  }

  /** With distinct ids, the filter removes exactly the one group that has the id, keeping the rest in order. */
  lemma {:induction false} RemoveByIdUnique(gs: seq<ListGroup>, id: string, k: nat)
    requires UniqueIds(gs) && k < |gs| && gs[k].id == id
    ensures RemoveById(gs, id) == RemoveAt(gs, k)
  {
    if k == 0 {
      RemoveByIdMissing(gs[1..], id);
    } else {
      RemoveByIdUnique(gs[1..], id, k - 1);
      assert gs[0].id != id;
      assert [gs[0]] + RemoveAt(gs[1..], k - 1) == RemoveAt(gs, k);
    }
  }

  /** The filter leaves a collection without the id unchanged. */
  lemma {:induction false} RemoveByIdMissing(gs: seq<ListGroup>, id: string)
    requires forall i :: 0 <= i < |gs| ==> gs[i].id != id
    ensures RemoveById(gs, id) == gs
  {
    if gs != [] {
      RemoveByIdMissing(gs[1..], id);
      assert [gs[0]] + gs[1..] == gs;
    }
  }

  /** Dropping one group keeps the remaining ids distinct. */
  lemma RemoveAtKeepsUnique(gs: seq<ListGroup>, k: nat)
    requires UniqueIds(gs) && k < |gs|
    ensures UniqueIds(RemoveAt(gs, k))
  {
    var rest := RemoveAt(gs, k);
    forall i, j | 0 <= i < j < |rest| ensures rest[i].id != rest[j].id {
      var i' := if i < k then i else i + 1;
      var j' := if j < k then j else j + 1;
      assert rest[i] == gs[i'] && rest[j] == gs[j'];
    }
  }

  /** The outcome of `deleteGroup`: rejected with a message, or the new collection and active id. */
  datatype DeleteOutcome = Rejected | Deleted(groups: seq<ListGroup>, activeId: string)

  /**
   * `deleteGroup` as written: the active id is reset to `listGroups[0].id` of the collection
   * BEFORE the filter, so deleting the first group while it is active keeps the deleted id.
   */
  function DeleteGroupAsWritten(gs: seq<ListGroup>, active: string, id: string): (r: DeleteOutcome)
    ensures r.Rejected? <==> |gs| <= 1
    ensures r.Deleted? ==> r.groups == RemoveById(gs, id)
    ensures r.Deleted? ==> r.activeId == if active == id then gs[0].id else active
  {
    if |gs| <= 1 then Rejected
    else Deleted(RemoveById(gs, id), if active == id then gs[0].id else active)
  }

  /**
   * The as-written reset leaves the pointer dangling: after deleting the active first group, no
   * group has the active id, the wheel falls back to showing the new first group, and an item
   * update (bulk input, removeItem, shuffle, winner removal) or a rename of it changes nothing.
   */
  lemma DeleteFirstActiveGroupDangles(gs: seq<ListGroup>, xs: seq<string>, name: string)
    requires UniqueIds(gs) && |gs| >= 2
    ensures var r := DeleteGroupAsWritten(gs, gs[0].id, gs[0].id);
      && r.Deleted?
      && !HasId(r.groups, r.activeId)
      && ActiveItems(r.groups, r.activeId) == gs[1].items
      && SetItems(r.groups, r.activeId, xs) == r.groups
      && SetName(r.groups, r.activeId, name) == r.groups
  {
    var id := gs[0].id;
    RemoveByIdUnique(gs, id, 0);
    var rest := RemoveById(gs, id);
    assert rest == gs[1..];
    assert !HasId(rest, id) by {
      forall i | 0 <= i < |rest| ensures rest[i].id != id {
        assert rest[i] == gs[i + 1];
      }
    }
    SetItemsMissingId(rest, id, xs);
    SetNameMissingId(rest, id, name);
  }

  /** `deleteGroup` with the pointer moved to the first REMAINING group, as the store intends. */
  function DeleteGroup(gs: seq<ListGroup>, active: string, id: string): (r: DeleteOutcome)
    ensures r.Rejected? <==> |gs| <= 1
    ensures r.Deleted? ==> r.groups == RemoveById(gs, id)
    ensures r.Deleted? && active != id ==> r.activeId == active
    ensures r.Deleted? && active == id && r.groups != [] ==> r.activeId == r.groups[0].id
  {
    if |gs| <= 1 then Rejected
    else
      var rest := RemoveById(gs, id);
      Deleted(rest, if active == id && rest != [] then rest[0].id else active)
  }

  /**
   * Deleting from a valid store either is rejected (a lone group) or removes exactly the group
   * with that id, keeps the others in order, and leaves a valid store: never empty, and an active
   * id that names an existing group.
   */
  lemma DeleteGroupKeepsStore(gs: seq<ListGroup>, active: string, id: string)
    requires ValidStore(gs, active)
    ensures var r := DeleteGroup(gs, active, id);
      && (r.Rejected? <==> |gs| == 1)
      && (r.Deleted? ==> ValidStore(r.groups, r.activeId))
      && (r.Deleted? && HasId(gs, id) ==> r.groups == RemoveAt(gs, FindIndex(gs, id).value))
      && (r.Deleted? && !HasId(gs, id) ==> r.groups == gs && r.activeId == active)
  {
    var r := DeleteGroup(gs, active, id);
    if r.Deleted? {
      var rest := r.groups;
      if HasId(gs, id) {
        var k := FindIndex(gs, id).value;
        RemoveByIdUnique(gs, id, k);
        assert |rest| == |gs| - 1 >= 1;
        RemoveAtKeepsUnique(gs, k);
        if active == id {
          assert rest[0].id == r.activeId;
        } else {
          var a := ActiveIndex(gs, active);
          assert a != k;
          var a' := if a < k then a else a - 1;
          assert rest[a'] == gs[a];
        }
      } else {
        RemoveByIdMissing(gs, id);
        var a := ActiveIndex(gs, active);
        assert active != id by { assert gs[a].id == active; }
      }
    }
  }

  /** Deleting the active group of a valid store makes the first remaining group active. */
  lemma DeleteActiveMovesToFirst(gs: seq<ListGroup>, id: string)
    requires ValidStore(gs, id)
    ensures var r := DeleteGroup(gs, id, id);
      r.Deleted? ==> r.groups != [] && r.activeId == r.groups[0].id
  {
    if |gs| > 1 {
      var k := FindIndex(gs, id).value;
      RemoveByIdUnique(gs, id, k);
    }
  }
}
