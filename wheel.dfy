/**
 * The lucky-wheel component: its list-group store, the spin bookkeeping (guard, winning
 * index, the ten-entry newest-first history, optional winner removal) and the choice
 * between creating and updating a cloud copy of the active list.
 *
 * The source's asynchronous steps are separate methods: `StartSpin` is the click,
 * `FinishSpin` the final animation frame and `FireRemoval` the 1.5-second timeout that
 * removes the winner. What those callbacks read from the render in which the spin started
 * (the items, the active id, the removal preference) is captured in `SpinInFlight` and
 * `PendingRemoval`, as JavaScript closures capture it.
 */
module Wheel {
  import opened Wrappers
  import opened Seqs
  import opened Text
  import opened ListGroups

  // ---------------------------------------------------------------------------------------
  // Spin history
  // ---------------------------------------------------------------------------------------

  /** One history entry: the winner's name and the clock reading in milliseconds. */
  datatype SpinRecord = SpinRecord(name: string, time: int)

  const HistoryLimit: nat := 10

  /** `[{name, time}, ...prev].slice(0, 10)`. */
  function PushHistory(h: seq<SpinRecord>, rec: SpinRecord): (r: seq<SpinRecord>)
    ensures |r| == if |h| < HistoryLimit then |h| + 1 else HistoryLimit
    ensures r[0] == rec
    ensures r[1..] == h[..|r| - 1]
  {
    var full := [rec] + h;
    assert full[1..] == h;
    full[..if |full| < HistoryLimit then |full| else HistoryLimit]
  }

  function Reverse<T>(s: seq<T>): (r: seq<T>)
    ensures |r| == |s|
    ensures forall i :: 0 <= i < |s| ==> r[i] == s[|s| - 1 - i]
  {
    if s == [] then [] else Reverse(s[1..]) + [s[0]]
  }

  /** The history after these spins, in the order they finished, starting from an empty history. */
  function HistoryOf(spins: seq<SpinRecord>): seq<SpinRecord> {
    if spins == [] then [] else PushHistory(HistoryOf(spins[..|spins| - 1]), spins[|spins| - 1])
  }

  lemma ReverseSnoc<T>(s: seq<T>, x: T)
    ensures Reverse(s + [x]) == [x] + Reverse(s)
  {
    var a, b := Reverse(s + [x]), [x] + Reverse(s);
    forall i | 0 <= i < |a| ensures a[i] == b[i] {
      if i > 0 { assert b[i] == Reverse(s)[i - 1]; }
    }
  }

  /** The history holds the ten most recent winners, newest first. */
  lemma {:induction false} HistoryKeepsTenNewest(spins: seq<SpinRecord>)
    ensures HistoryOf(spins) == Reverse(spins)[..if |spins| < HistoryLimit then |spins| else HistoryLimit]
  {
    if spins != [] {
      var init, last := spins[..|spins| - 1], spins[|spins| - 1];
      assert spins == init + [last];
      HistoryKeepsTenNewest(init);
      ReverseSnoc(init, last);
      var m := if |init| < HistoryLimit then |init| else HistoryLimit;
      var n := if |spins| < HistoryLimit then |spins| else HistoryLimit;
      var rev := Reverse(init);
      assert HistoryOf(spins) == ([last] + rev[..m])[..n];
      assert ([last] + rev[..m])[..n] == ([last] + rev)[..n];
    }
  }

  // ---------------------------------------------------------------------------------------
  // Cloud save
  // ---------------------------------------------------------------------------------------

  /** A list as the remote list service returns it. */
  datatype CloudList = CloudList(id: int, name: string, items: seq<string>)

  /** What `saveToCloud` does: ask the user to log in, or send one update or create call. */
  datatype CloudRequest =
    | LoginRequired
    | UpdateList(id: int, items: seq<string>)
    | CreateList(listType: string, name: string, items: seq<string>)

  /** `lists.find(l => l.name === name)`, as an index. */
  function FindByName(lists: seq<CloudList>, name: string): (r: Option<nat>)
    ensures r.Some? ==> r.value < |lists| && lists[r.value].name == name
    ensures r.Some? ==> forall j :: 0 <= j < r.value ==> lists[j].name != name
    ensures r.None? <==> forall j :: 0 <= j < |lists| ==> lists[j].name != name
  {
    if lists == [] then None
    else if lists[0].name == name then Some(0)
    else match FindByName(lists[1..], name)
      case None =>
        assert forall j :: 1 <= j < |lists| ==> lists[j] == lists[1..][j - 1];
        None
      case Some(k) => Some(k + 1)
  }

  /**
   * `saveToCloud` for the group on display: without a login nothing is sent; otherwise the
   * first cloud list with the group's name is updated, and when there is none (or the cloud
   * lists have not been fetched yet) a new "wheel" list is created.
   */
  function SaveToCloudRequest(isAuthenticated: bool, cloudLists: Option<seq<CloudList>>, group: ListGroup): (req: CloudRequest)
    ensures !isAuthenticated <==> req == LoginRequired
    ensures req.UpdateList? ==>
      && cloudLists.Some? && req.items == group.items
      && FindByName(cloudLists.value, group.name).Some?
      && req.id == cloudLists.value[FindByName(cloudLists.value, group.name).value].id
    ensures req.CreateList? <==>
      && isAuthenticated
      && (cloudLists.None? || forall j :: 0 <= j < |cloudLists.value| ==> cloudLists.value[j].name != group.name)
    ensures req.CreateList? ==> req == CreateList("wheel", group.name, group.items)
  {
    if !isAuthenticated then LoginRequired
    else
      var found := if cloudLists.Some? then FindByName(cloudLists.value, group.name) else None;
      match found
      case Some(k) => UpdateList(cloudLists.value[k].id, group.items)
      case None => CreateList("wheel", group.name, group.items)
  }

  // ---------------------------------------------------------------------------------------
  // The component state
  // ---------------------------------------------------------------------------------------

  /** The built-in list groups a first visit starts with. */
  function DefaultListGroups(): (gs: seq<ListGroup>)
    ensures |gs| == 3 && ValidStore(gs, "raymond30") && gs[0].id == "raymond30"
    ensures forall i :: 0 <= i < |gs| ==> |gs[i].items| >= 2
  {
    var gs :=
      [ ListGroup("raymond30", "雷蒙三十", ["柚子", "雷蒙", "Lifehacker", "黑客島民", "超級個體", "一人公司"]),
        ListGroup("fitness", "健身鍛鍊", ["練胸", "練腿", "練背", "核心訓練", "有氧"]),
        ListGroup("destiny", "命運之輪",
          ["分享一個秘密", "模仿一個人", "唱一首歌", "說一個笑話", "打電話給朋友",
           "做10個伏地挺身", "學動物叫", "說出最尷尬的事", "比手畫腳", "真心話時間"]) ];
    assert gs[0].id[0] == 'r' && gs[1].id[0] == 'f' && gs[2].id[0] == 'd';
    assert gs[0].id == "raymond30";
    gs
  }

  /** `custom-${Date.now()}`: the id of a group created at clock reading `now`. */
  function NewGroupId(now: nat): (id: string)
    ensures |id| > 7 && id[..7] == "custom-" && AllDigits(id[7..])
    ensures DigitsValue(id[7..]) == now
  {
    var d := NatToString(now);
    NatToStringRoundTrip(now);
    assert ("custom-" + d)[7..] == d;
    "custom-" + d
  }

  /** Groups created at different clock readings get different ids. */
  lemma NewGroupIdInjective(a: nat, b: nat)
    requires a != b
    ensures NewGroupId(a) != NewGroupId(b)
  {
  }

  /** The spin the animation is running: the spin-time values its callback closes over. */
  datatype SpinInFlight = SpinInFlight(targetIndex: nat, items: seq<string>, groupId: string, removeWinner: bool)

  /** A scheduled winner removal: `updateItems(newItems)` bound to the spin-time active id. */
  datatype PendingRemoval = PendingRemoval(groupId: string, items: seq<string>)

  class WheelState {
    var listGroups: seq<ListGroup>
    var activeGroupId: string
    var isSpinning: bool
    var winner: Option<string>
    var spinHistory: seq<SpinRecord>
    var removeWinnerAfterSpin: bool
    var inFlight: Option<SpinInFlight>
    /** Timeouts fire in the order they were set, all having the same delay. */
    var pendingRemovals: seq<PendingRemoval>

    ghost predicate Valid()
      reads this
    {
      && ValidStore(listGroups, activeGroupId)
      && |spinHistory| <= HistoryLimit
      && (isSpinning <==> inFlight.Some?)
      && (inFlight.Some? ==> inFlight.value.targetIndex < |inFlight.value.items|)
    }

    /** The items on the wheel. */
    function Items(): seq<string>
      reads this
    {
      ActiveItems(listGroups, activeGroupId)
    }

    /** The group on display (line 157). */
    function ActiveGroup(): ListGroup
      reads this
      requires |listGroups| > 0
    {
      listGroups[ActiveIndex(listGroups, activeGroupId)]
    }

    /** A first visit: nothing in local storage. */
    constructor ()
      ensures Valid()
      ensures listGroups == DefaultListGroups() && activeGroupId == "raymond30"
      ensures !isSpinning && winner == None && spinHistory == [] && !removeWinnerAfterSpin
      ensures pendingRemovals == []
    {
      listGroups := DefaultListGroups();
      activeGroupId := "raymond30";
      isSpinning := false;
      winner := None;
      spinHistory := [];
      removeWinnerAfterSpin := false;
      inFlight := None;
      pendingRemovals := [];
      new;
      assert listGroups[0].id == activeGroupId;
    }

    /** `updateItems`: the new items go to the groups with the active id; nothing else changes. */
    method UpdateItems(newItems: seq<string>)
      requires Valid()
      modifies this`listGroups
      ensures Valid()
      ensures listGroups == SetItems(old(listGroups), activeGroupId, newItems)
      ensures Items() == newItems
    {
      SetActiveItemsShows(listGroups, activeGroupId, newItems);
      SetItemsKeepsStore(listGroups, activeGroupId, activeGroupId, newItems);
      listGroups := SetItems(listGroups, activeGroupId, newItems);
    }

    /** `handleBulkInput`: replace the items with the parsed text unless it parses to nothing. */
    method HandleBulkInput(text: string)
      requires Valid()
      modifies this`listGroups
      ensures Valid()
      ensures ParseBulk(text) == [] ==> listGroups == old(listGroups)
      ensures ParseBulk(text) != [] ==> listGroups == SetItems(old(listGroups), activeGroupId, ParseBulk(text))
      ensures ParseBulk(text) != [] ==> Items() == ParseBulk(text)
    {
      var newItems := ParseBulk(text);
      if |newItems| > 0 {
        UpdateItems(newItems);
      }
    }

    /** `removeItem(index)`: the list on display without element `index`. */
    method RemoveItem(index: nat)
      requires Valid()
      modifies this`listGroups
      ensures Valid()
      ensures Items() == RemoveAt(old(Items()), index)
      ensures listGroups == SetItems(old(listGroups), activeGroupId, RemoveAt(old(Items()), index))
    {
      UpdateItems(RemoveAt(Items(), index));
    }

    /** `shuffleItems`, with the random-comparator sort's output given as a permutation. */
    method ShuffleItems(shuffled: seq<string>)
      requires Valid()
      requires multiset(shuffled) == multiset(Items())
      modifies this`listGroups
      ensures Valid()
      ensures Items() == shuffled
      ensures listGroups == SetItems(old(listGroups), activeGroupId, shuffled)
    {
      UpdateItems(shuffled);
    }

    /**
     * `addNewGroup`: a blank name is ignored; otherwise a group with the trimmed name and no
     * items is appended and becomes active. The clock reading is newer than that of any group
     * already created, so the id is new.
     */
    method AddNewGroup(newGroupName: string, now: nat)
      requires Valid()
      requires !HasId(listGroups, NewGroupId(now))
      modifies this`listGroups, this`activeGroupId
      ensures Valid()
      ensures Trim(newGroupName) == [] ==> listGroups == old(listGroups) && activeGroupId == old(activeGroupId)
      ensures Trim(newGroupName) != [] ==>
        && listGroups == old(listGroups) + [ListGroup(NewGroupId(now), Trim(newGroupName), [])]
        && activeGroupId == NewGroupId(now)
        && Items() == []
    {
      var name := Trim(newGroupName);
      if name != [] {
        var id := NewGroupId(now);
        var old_ := listGroups;
        listGroups := listGroups + [ListGroup(id, name, [])];
        activeGroupId := id;
        assert listGroups[|old_|].id == id;
        assert forall i :: 0 <= i < |old_| ==> listGroups[i] == old_[i];
      }
    }

    /**
     * `deleteGroup`: refused while only one group exists; otherwise the group with the id is
     * removed and, if it was active, the pointer moves to the first remaining group.
     */
    method DeleteGroup(groupId: string) returns (rejected: bool)
      requires Valid()
      modifies this`listGroups, this`activeGroupId
      ensures Valid()
      ensures rejected <==> |old(listGroups)| == 1
      ensures rejected ==> listGroups == old(listGroups) && activeGroupId == old(activeGroupId)
      ensures !rejected ==> ListGroups.DeleteGroup(old(listGroups), old(activeGroupId), groupId) == Deleted(listGroups, activeGroupId)
      ensures !rejected && old(activeGroupId) == groupId ==> activeGroupId == listGroups[0].id
      ensures !rejected && old(activeGroupId) != groupId ==> activeGroupId == old(activeGroupId)
    {
      DeleteGroupKeepsStore(listGroups, activeGroupId, groupId);
      if activeGroupId == groupId {
        DeleteActiveMovesToFirst(listGroups, groupId);
      }
      match ListGroups.DeleteGroup(listGroups, activeGroupId, groupId)
      case Rejected =>
        rejected := true;
      case Deleted(gs, active) =>
        rejected := false;
        listGroups, activeGroupId := gs, active;
    }

    /** `saveEditingName`: a blank name is ignored; otherwise the active group is renamed to the trimmed text. */
    method SaveEditingName(editingName: string)
      requires Valid()
      modifies this`listGroups
      ensures Valid()
      ensures Trim(editingName) == [] ==> listGroups == old(listGroups)
      ensures Trim(editingName) != [] ==> listGroups == SetName(old(listGroups), activeGroupId, Trim(editingName))
      ensures Items() == old(Items())
    {
      var name := Trim(editingName);
      if name != [] {
        SetNameKeepsStore(listGroups, activeGroupId, activeGroupId, name);
        SetNameKeepsItems(listGroups, activeGroupId, activeGroupId, name);
        listGroups := SetName(listGroups, activeGroupId, name);
      }
    }

    /** Clicking a group in the list makes it active. */
    method SelectGroup(index: nat)
      requires Valid() && index < |listGroups|
      modifies this`activeGroupId
      ensures Valid()
      ensures activeGroupId == listGroups[index].id
      ensures ActiveGroup() == listGroups[index]
    {
      activeGroupId := listGroups[index].id;
      var k := ActiveIndex(listGroups, activeGroupId);
      assert listGroups[k].id == listGroups[index].id;
    }

    /** The "remove winner after spin" checkbox. */
    method ToggleRemoveWinner()
      requires Valid()
      modifies this`removeWinnerAfterSpin
      ensures Valid()
      ensures removeWinnerAfterSpin == !old(removeWinnerAfterSpin)
    {
      removeWinnerAfterSpin := !removeWinnerAfterSpin;
    }

    /** The history's clear button. */
    method ClearHistory()
      requires Valid()
      modifies this`spinHistory
      ensures Valid()
      ensures spinHistory == []
    {
      spinHistory := [];
    }

    /**
     * `spin`: a no-op while a spin runs or with fewer than two items; otherwise the winning
     * index (`Math.floor(Math.random() * items.length)`, given here) is fixed and the
     * animation starts.
     */
    method StartSpin(targetIndex: nat) returns (started: bool)
      requires Valid()
      requires !isSpinning && |Items()| >= 2 ==> targetIndex < |Items()|
      modifies this`isSpinning, this`winner, this`inFlight
      ensures Valid()
      ensures started <==> !old(isSpinning) && |Items()| >= 2
      ensures !started ==> isSpinning == old(isSpinning) && winner == old(winner) && inFlight == old(inFlight)
      ensures started ==> isSpinning && winner == None
      ensures started ==> inFlight == Some(SpinInFlight(targetIndex, Items(), activeGroupId, removeWinnerAfterSpin))
    {
      if isSpinning || |Items()| < 2 {
        return false;
      }
      isSpinning := true;
      winner := None;
      inFlight := Some(SpinInFlight(targetIndex, Items(), activeGroupId, removeWinnerAfterSpin));
      started := true;
    }

    /**
     * The animation's final frame: the spin ends, `items[targetIndex]` wins and goes to the
     * front of the history, and with removal enabled a removal of that index is scheduled.
     */
    method FinishSpin(now: int)
      requires Valid() && inFlight.Some?
      modifies this`isSpinning, this`winner, this`spinHistory, this`inFlight, this`pendingRemovals
      ensures Valid()
      ensures !isSpinning && inFlight == None
      ensures var f := old(inFlight.value);
        && winner == Some(f.items[f.targetIndex])
        && spinHistory == PushHistory(old(spinHistory), SpinRecord(f.items[f.targetIndex], now))
        && pendingRemovals == old(pendingRemovals) +
             (if f.removeWinner then [PendingRemoval(f.groupId, RemoveAt(f.items, f.targetIndex))] else [])
    {
      var f := inFlight.value;
      var winnerName := f.items[f.targetIndex];
      isSpinning := false;
      winner := Some(winnerName);
      spinHistory := PushHistory(spinHistory, SpinRecord(winnerName, now));
      if f.removeWinner {
        pendingRemovals := pendingRemovals + [PendingRemoval(f.groupId, RemoveAt(f.items, f.targetIndex))];
      }
      inFlight := None;
    }

    /** The oldest scheduled removal fires: `updateItems` as bound at spin time. */
    method FireRemoval()
      requires Valid() && |pendingRemovals| > 0
      modifies this`listGroups, this`pendingRemovals
      ensures Valid()
      ensures listGroups == SetItems(old(listGroups), old(pendingRemovals[0]).groupId, old(pendingRemovals[0]).items)
      ensures pendingRemovals == old(pendingRemovals[1..])
    {
      var r := pendingRemovals[0];
      SetItemsKeepsStore(listGroups, activeGroupId, r.groupId, r.items);
      listGroups := SetItems(listGroups, r.groupId, r.items);
      pendingRemovals := pendingRemovals[1..];
    }

    /** `saveToCloud` for the group on display. */
    function CloudSave(isAuthenticated: bool, cloudLists: Option<seq<CloudList>>): (req: CloudRequest)
      reads this
      requires Valid()
      ensures !isAuthenticated <==> req == LoginRequired
      ensures req.UpdateList? ==> req.items == Items()
      ensures req.CreateList? ==> req == CreateList("wheel", ActiveGroup().name, Items())
    {
      SaveToCloudRequest(isAuthenticated, cloudLists, ActiveGroup())
    }
  }

  /**
   * A whole spin with removal enabled and no other action in between: the winner is the item
   * at the chosen index, it heads the history, and the wheel then shows the list without it.
   */
  method SpinWithRemoval(w: WheelState, targetIndex: nat, now: int)
    requires w.Valid() && !w.isSpinning && w.removeWinnerAfterSpin && w.pendingRemovals == []
    requires 2 <= |w.Items()| && targetIndex < |w.Items()|
    modifies w
    ensures w.Valid()
    ensures w.winner == Some(old(w.Items())[targetIndex])
    ensures |w.spinHistory| > 0 && w.spinHistory[0] == SpinRecord(old(w.Items())[targetIndex], now)
    ensures w.Items() == RemoveAt(old(w.Items()), targetIndex)
    ensures |w.Items()| == |old(w.Items())| - 1
  {
    var started := w.StartSpin(targetIndex);
    w.FinishSpin(now);
    assert w.pendingRemovals == [PendingRemoval(w.activeGroupId, RemoveAt(old(w.Items()), targetIndex))];
    SetActiveItemsShows(w.listGroups, w.activeGroupId, RemoveAt(old(w.Items()), targetIndex));
    w.FireRemoval();
  }
}
