/** The game-wide registry of ground workshops: one entry per workshop part,
    keyed by the part's flightID and kept in ascending id order. Workshops
    register a snapshot of themselves whenever they start, stop or the game
    is saved; a slow poll flags overdue constructions once and flips them to
    idle; the registry is saved as a list sorted by id and rebuilt from such
    a list on load. */
module GroundConstructionScenario {
  import opened Common

  /** WorkshopInfo.Status. */
  datatype Status = Idle | Active | Complete

  /** What a workshop reports about itself when it registers: its vessel,
      its part's flightID, the celestial body it is on, the vessel name, and
      its kit under construction (whether it is valid, its name) and ETA. */
  datatype WorkshopSnapshot = WorkshopSnapshot(
    vesselID: nat,
    flightID: uint32,
    body: string,
    vesselName: string,
    kitValid: bool,
    kitName: string,
    eta: real)

  /** A registry entry. `kitName` is empty when no valid kit was under
      construction; `eta` is the ETA text, absent until the first poll that
      refreshes it. */
  datatype WorkshopInfo = WorkshopInfo(
    vesselID: nat,
    id: uint32,
    body: string,
    name: string,
    kitName: string,
    state: Status,
    endUT: real,
    eta: Option<EtaDisplay>)

  /** The WorkshopInfo constructor, at universal time `now`. */
  function NewInfo(s: WorkshopSnapshot, now: real): (w: WorkshopInfo)
    ensures w.id == s.flightID && w.vesselID == s.vesselID
    ensures w.body == s.body && w.name == s.vesselName
    ensures w.state == Active <==> s.kitValid
    ensures w.state != Active ==> w.state == Idle && w.kitName == ""
    ensures w.state == Active ==> w.kitName == s.kitName
    ensures w.state == Active && s.eta > 0.0 ==> w.endUT == now + s.eta
    ensures !(w.state == Active && s.eta > 0.0) ==> w.endUT == -1.0
    ensures w.eta == None
  {
    if s.kitValid then
      WorkshopInfo(s.vesselID, s.flightID, s.body, s.vesselName, s.kitName, Active,
                   if s.eta > 0.0 then now + s.eta else -1.0, None)
    else
      WorkshopInfo(s.vesselID, s.flightID, s.body, s.vesselName, "", Idle, -1.0, None)
  }

  /** The colour an entry is listed in. */
  datatype Style = Green | Yellow | Red | White

  function GetStyle(w: WorkshopInfo): (st: Style)
    ensures st == Green <==> w.state == Complete
    ensures st == Yellow <==> w.state == Active && w.endUT > 0.0
    ensures st == Red <==> w.state == Active && w.endUT <= 0.0
    ensures st == White <==> w.state == Idle
  {
    match w.state
    case Complete => Green
    case Active => if w.endUT > 0.0 then Yellow else Red
    case Idle => White
  }

  /** The message template an entry is listed with, with its arguments. */
  datatype Line =
    | Assembled(body: string, name: string, kitName: string)
    | Building(body: string, name: string, kitName: string, eta: Option<EtaDisplay>)
    | IsIdle(body: string, name: string)

  function Describe(w: WorkshopInfo): (l: Line)
    ensures l.Assembled? <==> w.state == Complete
    ensures l.Building? <==> w.state == Active
    ensures l.IsIdle? <==> w.state == Idle
    ensures l.body == w.body && l.name == w.name
    ensures !l.IsIdle? ==> l.kitName == w.kitName
    ensures l.Building? ==> l.eta == w.eta
  {
    match w.state
    case Complete => Assembled(w.body, w.name, w.kitName)
    case Active => Building(w.body, w.name, w.kitName, w.eta)
    case Idle => IsIdle(w.body, w.name)
  }

  /** Colour and text follow the same state: green entries read
      "assembled", yellow and red ones "is building", white ones "is idle". */
  lemma StyleMatchesLine(w: WorkshopInfo)
    ensures GetStyle(w) == Green <==> Describe(w).Assembled?
    ensures (GetStyle(w) == Yellow || GetStyle(w) == Red) <==> Describe(w).Building?
    ensures GetStyle(w) == White <==> Describe(w).IsIdle?
  {
  }

  /** The static SortedDictionary of workshops. */
  type Registry = map<uint32, WorkshopInfo>

  /** Every entry is filed under its own id. */
  ghost predicate KeysMatch(reg: Registry) {
    forall id :: id in reg ==> reg[id].id == id
  }

  /** RegisterWorkshop: insert or overwrite the entry of the workshop's part. */
  function Register(reg: Registry, s: WorkshopSnapshot, now: real): (r: Registry)
    ensures s.flightID in r && r[s.flightID] == NewInfo(s, now)
    ensures r.Keys == reg.Keys + {s.flightID}
    ensures forall id :: id in reg && id != s.flightID ==> r[id] == reg[id]
    ensures KeysMatch(reg) ==> KeysMatch(r)
  {
    reg[s.flightID := NewInfo(s, now)]
  }

  /** DeregisterWorkshop: remove the entry, reporting whether there was one. */
  function Deregister(reg: Registry, flightID: uint32): (r: (Registry, bool))
    ensures r.1 <==> flightID in reg
    ensures r.0.Keys == reg.Keys - {flightID}
    ensures forall id :: id in r.0 ==> r.0[id] == reg[id]
    ensures KeysMatch(reg) ==> KeysMatch(r.0)
  {
    (reg - {flightID}, flightID in reg)
  }

  /** Registering and then deregistering the same part leaves the registry
      as it was, provided the part was not registered before. */
  lemma RegisterDeregister(reg: Registry, s: WorkshopSnapshot, now: real)
    requires s.flightID !in reg
    ensures Deregister(Register(reg, s, now), s.flightID) == (reg, true)
  {
    var r := Deregister(Register(reg, s, now), s.flightID).0;
    assert r.Keys == reg.Keys;
    assert forall id :: id in r ==> r[id] == reg[id];
    assert r == reg;
  }

  /** An entry is overdue: not idle and its positive end time has passed. */
  predicate Fires(w: WorkshopInfo, now: real) {
    w.state != Idle && 0.0 < w.endUT < now
  }

  /** One entry in one sweep: idle entries are skipped, overdue ones go
      idle, every other one gets its ETA text refreshed. */
  function Sweep(w: WorkshopInfo, now: real): (r: WorkshopInfo)
    ensures w.state == Idle ==> r == w
    ensures Fires(w, now) ==> r == w.(state := Idle)
    ensures w.state != Idle && !Fires(w, now) ==>
      r == w.(eta := Some(if w.endUT > 0.0 then TimeLeft(w.endUT - now) else Stalled))
    ensures r.id == w.id && r.endUT == w.endUT
    ensures r.state == w.state || r.state == Idle
  {
    if w.state == Idle then w
    else if Fires(w, now) then w.(state := Idle)
    else w.(eta := Some(if w.endUT > 0.0 then TimeLeft(w.endUT - now) else Stalled))
  }

  /** The message raised for an overdue entry. */
  datatype Notice = Notice(name: string, kitName: string)

  /** One poll: the registry afterwards, the messages raised in order, and
      whether time warp is to be stopped. */
  datatype PollResult = PollResult(registry: Registry, notices: seq<Notice>, finished: bool)

  /** The sweep over the entries with the given ids, in that order, each
      read from the registry as the sweep has left it so far. */
  function PollIds(reg: Registry, ids: seq<uint32>, now: real): (r: PollResult)
    requires forall i :: 0 <= i < |ids| ==> ids[i] in reg
    requires NoDuplicates(ids)
    ensures r.registry.Keys == reg.Keys
    ensures forall i :: 0 <= i < |ids| ==> r.registry[ids[i]] == Sweep(reg[ids[i]], now)
    ensures forall id :: id in reg && id !in ids ==> r.registry[id] == reg[id]
    ensures r.finished <==> exists i :: 0 <= i < |ids| && Fires(reg[ids[i]], now)
    ensures r.finished <==> |r.notices| > 0
    ensures |r.notices| <= |ids|
    decreases |ids|
  {
    if |ids| == 0 then PollResult(reg, [], false)
    else
      var id := ids[|ids| - 1];
      NoDuplicatesInit(ids);
      var prev := PollIds(reg, ids[..|ids| - 1], now);
      PollIdsStep(reg, ids, now, prev);
      var w := prev.registry[id];
      var fired := Fires(w, now);
      PollResult(prev.registry[id := Sweep(w, now)],
                 prev.notices + (if fired then [Notice(w.name, w.kitName)] else []),
                 prev.finished || fired)
  }

  /** Sweeping one more id extends what PollIds promises from `ids`
      without its last element to all of `ids`. */
  lemma PollIdsStep(reg: Registry, ids: seq<uint32>, now: real, prev: PollResult)
    requires forall i :: 0 <= i < |ids| ==> ids[i] in reg
    requires NoDuplicates(ids) && |ids| > 0
    requires var init := ids[..|ids| - 1];
      && prev.registry.Keys == reg.Keys
      && (forall i :: 0 <= i < |init| ==> prev.registry[init[i]] == Sweep(reg[init[i]], now))
      && (forall id :: id in reg && id !in init ==> prev.registry[id] == reg[id])
      && (prev.finished <==> exists i :: 0 <= i < |init| && Fires(reg[init[i]], now))
      && (prev.finished <==> |prev.notices| > 0)
      && |prev.notices| <= |init|
    ensures var id := ids[|ids| - 1];
      var w := prev.registry[id];
      var r := PollResult(prev.registry[id := Sweep(w, now)],
                          prev.notices + (if Fires(w, now) then [Notice(w.name, w.kitName)] else []),
                          prev.finished || Fires(w, now));
      && r.registry.Keys == reg.Keys
      && (forall i :: 0 <= i < |ids| ==> r.registry[ids[i]] == Sweep(reg[ids[i]], now))
      && (forall id :: id in reg && id !in ids ==> r.registry[id] == reg[id])
      && (r.finished <==> exists i :: 0 <= i < |ids| && Fires(reg[ids[i]], now))
      && (r.finished <==> |r.notices| > 0)
      && |r.notices| <= |ids|
  {
    var init := ids[..|ids| - 1];
    var id := ids[|ids| - 1];
    NoDuplicatesInit(ids);
    assert prev.registry[id] == reg[id];
    assert forall i :: 0 <= i < |init| ==> init[i] == ids[i];
  }

  /** One iteration of slow_update: sweep every entry in ascending id order. */
  function Poll(reg: Registry, now: real): (r: PollResult)
    ensures r.registry.Keys == reg.Keys
    ensures forall id :: id in reg ==> r.registry[id] == Sweep(reg[id], now)
    ensures r.finished <==> exists id :: id in reg && Fires(reg[id], now)
    ensures r.finished <==> |r.notices| > 0
  {
    var ids := SortedIds(reg.Keys);
    SortedIdsNoDuplicates(reg.Keys);
    var r := PollIds(reg, ids, now);
    assert forall id :: id in reg ==> exists i :: 0 <= i < |ids| && ids[i] == id;
    r
  }

  /** An entry fires at most once: whatever fired in one poll is idle
      afterwards and does not fire in any later poll. */
  lemma FiresAtMostOnce(reg: Registry, now: real, later: real)
    ensures forall id :: id in reg && Fires(reg[id], now) ==>
      Poll(reg, now).registry[id].state == Idle && !Fires(Poll(reg, now).registry[id], later)
  {
  }

  /** No poll ever marks an entry complete, and a poll only ever moves an
      entry to idle. */
  lemma PollNeverCompletes(reg: Registry, now: real)
    ensures forall id :: id in reg ==>
      var s := Poll(reg, now).registry[id].state;
      (s == reg[id].state || s == Idle) && (s == Complete ==> reg[id].state == Complete)
  {
  }

  /** A poll keeps every entry under its own id. */
  lemma PollKeepsKeysMatch(reg: Registry, now: real)
    requires KeysMatch(reg)
    ensures KeysMatch(Poll(reg, now).registry)
  {
  }

  /** An overdue construction at workshop 7, polled at time 200 with an end
      time of 150, goes idle and raises a notice; a second poll is quiet. */
  lemma OverdueExample()
    ensures var w := WorkshopInfo(1, 7, "Kerbin", "Base", "Rover", Active, 150.0, None);
      var p := Poll(map[7 := w], 200.0);
      && p.registry == map[7 := w.(state := Idle)]
      && p.finished
      && !Poll(p.registry, 300.0).finished
  {
    var w := WorkshopInfo(1, 7, "Kerbin", "Base", "Rover", Active, 150.0, None);
    var reg := map[7 := w];
    var p := Poll(reg, 200.0);
    assert Sweep(w, 200.0) == w.(state := Idle);
    assert p.registry[7] == w.(state := Idle);
    assert p.registry == map[7 := w.(state := Idle)];
    var q := Poll(p.registry, 300.0);
    assert !Fires(p.registry[7], 300.0);
  }

  /** The entries filed under the given ids, in that order. */
  function Lookup(reg: Registry, ids: seq<uint32>): (r: seq<WorkshopInfo>)
    requires forall i :: 0 <= i < |ids| ==> ids[i] in reg
    ensures |r| == |ids|
    ensures forall i :: 0 <= i < |ids| ==> r[i] == reg[ids[i]]
    decreases |ids|
  {
    if |ids| == 0 then []
    else Lookup(reg, ids[..|ids| - 1]) + [reg[ids[|ids| - 1]]]
  }

  /** OnSave: the registry's entries sorted ascending by id. */
  function Save(reg: Registry): seq<WorkshopInfo> {
    Lookup(reg, SortedIds(reg.Keys))
  }

  /** Under KeysMatch the saved list is strictly ascending by id. */
  lemma SaveSorted(reg: Registry)
    requires KeysMatch(reg)
    ensures forall i, j :: 0 <= i < j < |Save(reg)| ==> Save(reg)[i].id < Save(reg)[j].id
  {
    var ids := SortedIds(reg.Keys);
    var r := Lookup(reg, ids);
    assert Save(reg) == r;
    assert forall i :: 0 <= i < |r| ==> r[i].id == ids[i];
  }

  /** The saved list holds exactly the registry's entries. */
  lemma SaveHoldsEntries(reg: Registry)
    ensures forall w :: w in Save(reg) <==> w in reg.Values
  {
    var ids := SortedIds(reg.Keys);
    var r := Lookup(reg, ids);
    assert Save(reg) == r;
    forall w ensures w in r <==> w in reg.Values {
      if w in reg.Values {
        var id :| id in reg && reg[id] == w;
        assert id in ids;
        var i :| 0 <= i < |ids| && ids[i] == id;
        assert r[i] == w;
      }
    }
  }

  /** The ids of a list are pairwise distinct. */
  ghost predicate DistinctIds(list: seq<WorkshopInfo>) {
    forall i, j :: 0 <= i < j < |list| ==> list[i].id != list[j].id
  }

  /** The outcome of OnLoad: the registry rebuilt, and the id on which
      SortedDictionary.Add threw, if it did (the entries added before the
      throw stay in the registry). */
  datatype LoadOutcome = LoadOutcome(registry: Registry, duplicate: Option<uint32>)

  /** workshops.ForEach(w => Workshops.Add(w.id, w)) on a cleared registry. */
  function LoadList(list: seq<WorkshopInfo>): (r: LoadOutcome)
    ensures KeysMatch(r.registry)
    ensures r.duplicate.None? <==> DistinctIds(list)
    ensures r.duplicate.None? ==>
      && (forall id :: id in r.registry <==> exists i :: 0 <= i < |list| && list[i].id == id)
      && (forall i :: 0 <= i < |list| ==> r.registry[list[i].id] == list[i])
    decreases |list|
  {
    if |list| == 0 then LoadOutcome(map[], None)
    else
      var init := list[..|list| - 1];
      var w := list[|list| - 1];
      var prev := LoadList(init);
      assert forall i :: 0 <= i < |init| ==> init[i] == list[i];
      if prev.duplicate.Some? then prev
      else if w.id in prev.registry then LoadOutcome(prev.registry, Some(w.id))
      else LoadOutcome(prev.registry[w.id := w], None)
  }

  /** OnLoad: the prior registry is discarded; a missing node loads nothing. */
  function Load(node: Option<seq<WorkshopInfo>>): (r: LoadOutcome)
    ensures node.None? ==> r == LoadOutcome(map[], None)
    ensures node.Some? ==> r == LoadList(node.value)
  {
    match node
    case None => LoadOutcome(map[], None)
    case Some(list) => LoadList(list)
  }

  /** A list holding every entry of a registry exactly once loads back
      into that registry. */
  lemma LoadRebuilds(reg: Registry, list: seq<WorkshopInfo>)
    requires forall i :: 0 <= i < |list| ==> list[i].id in reg && reg[list[i].id] == list[i]
    requires forall id :: id in reg ==> exists i :: 0 <= i < |list| && list[i].id == id
    requires DistinctIds(list)
    ensures LoadList(list) == LoadOutcome(reg, None)
  {
    var r := LoadList(list).registry;
    forall id | id in reg ensures id in r && r[id] == reg[id] {
      var i :| 0 <= i < |list| && list[i].id == id;
    }
    assert r.Keys == reg.Keys;
    assert r == reg;
  }

  /** Loading what was saved restores the registry, with no exception. */
  lemma LoadSave(reg: Registry)
    requires KeysMatch(reg)
    ensures Load(Some(Save(reg))) == LoadOutcome(reg, None)
  {
    var list := Save(reg);
    SaveHoldsEntries(reg);
    SaveSorted(reg);
    forall i | 0 <= i < |list| ensures list[i].id in reg && reg[list[i].id] == list[i] {
      assert list[i] in reg.Values;
      var k :| k in reg && reg[k] == list[i];
    }
    forall id | id in reg ensures exists i :: 0 <= i < |list| && list[i].id == id {
      assert reg[id] in reg.Values;
      var i :| 0 <= i < |list| && list[i] == reg[id];
      assert list[i].id == id;
    }
    LoadRebuilds(reg, list);
  }

  /** The ids of a list, in order. */
  function Ids(list: seq<WorkshopInfo>): (r: seq<uint32>)
    ensures |r| == |list|
    ensures forall i :: 0 <= i < |list| ==> r[i] == list[i].id
    decreases |list|
  {
    if |list| == 0 then []
    else Ids(list[..|list| - 1]) + [list[|list| - 1].id]
  }

  /** The ids of a list are the keys of a registry holding its entries. */
  lemma IdsAreKeys(reg: Registry, list: seq<WorkshopInfo>)
    requires forall id :: id in reg <==> exists i :: 0 <= i < |list| && list[i].id == id
    ensures forall x :: x in Ids(list) <==> x in reg.Keys
  {
    var ids := Ids(list);
    forall x ensures x in ids <==> x in reg.Keys {
      if x in ids {
        var i :| 0 <= i < |ids| && ids[i] == x;
      }
      if x in reg.Keys {
        var i :| 0 <= i < |list| && list[i].id == x;
        assert ids[i] == x;
      }
    }
  }

  /** A registry whose entries are exactly those of a list sorted by id
      saves as that list. */
  lemma SavesAs(reg: Registry, list: seq<WorkshopInfo>)
    requires forall i, j :: 0 <= i < j < |list| ==> list[i].id < list[j].id
    requires forall x :: x in Ids(list) <==> x in reg.Keys
    requires forall i :: 0 <= i < |list| ==> list[i].id in reg && reg[list[i].id] == list[i]
    ensures Save(reg) == list
  {
    var ids := Ids(list);
    SortedIdsOf(reg.Keys, ids);
    LookupIds(reg, list);
  }

  /** Looking up the ids of a list in a registry holding its entries gives
      the list back. */
  lemma LookupIds(reg: Registry, list: seq<WorkshopInfo>)
    requires forall i :: 0 <= i < |list| ==> list[i].id in reg && reg[list[i].id] == list[i]
    ensures Lookup(reg, Ids(list)) == list
  {
    var r := Lookup(reg, Ids(list));
    assert forall i :: 0 <= i < |list| ==> r[i] == list[i];
  }

  /** Saving what was loaded from a list sorted by id gives that list back. */
  lemma SaveLoad(list: seq<WorkshopInfo>)
    requires forall i, j :: 0 <= i < j < |list| ==> list[i].id < list[j].id
    ensures LoadList(list).duplicate == None
    ensures Save(LoadList(list).registry) == list
  {
    assert DistinctIds(list);
    IdsAreKeys(LoadList(list).registry, list);
    SavesAs(LoadList(list).registry, list);
  }
}
