/** The registry of recyclable parts behind the recycler window: an
    insertion-ordered map from part persistent id to its recyclable wrapper,
    reconciled against the current set of parts by Sync. */
module PartsRegistry {
  import opened Common

  /** A part as the registry sees it: its persistent id and its title. */
  datatype Part = Part(persistentId: uint32, title: string)

  /** A vessel as the recycler window sees it: its root part. */
  datatype Vessel = Vessel(rootPart: Part)

  /** The recyclable wrapper of a part, bound to the recycler that owns it. */
  datatype RecyclablePart = RecyclablePart(part: Part, recycler: nat) {
    function ID(): uint32 {
      part.persistentId
    }
  }

  /** `order` lists the ids in insertion order; `entries` is the dictionary
      from id to wrapper. */
  datatype Registry = Registry(recycler: nat, order: seq<uint32>, entries: map<uint32, RecyclablePart>) {
    /** The list and the dictionary hold the same ids, each once, and every
        entry is filed under its own id and belongs to this registry's recycler. */
    ghost predicate Valid() {
      && NoDuplicates(order)
      && (forall id :: id in entries <==> id in order)
      && (forall id :: id in entries ==> entries[id].ID() == id && entries[id].recycler == recycler)
    }

    /** Count: the number of dictionary entries. */
    function Count(): nat {
      |entries|
    }
  }

  /** The ids of a sequence of wrappers. */
  function IdsOf(rps: seq<RecyclablePart>): (r: seq<uint32>)
    ensures |r| == |rps|
    ensures forall i :: 0 <= i < |r| ==> r[i] == rps[i].ID()
  {
    if |rps| == 0 then [] else IdsOf(rps[..|rps| - 1]) + [rps[|rps| - 1].ID()]
  }

  /** The ids of a sequence of parts, in order, duplicates included. */
  function PartIdSeq(parts: seq<Part>): (r: seq<uint32>)
    ensures |r| == |parts|
    ensures forall i :: 0 <= i < |r| ==> r[i] == parts[i].persistentId
  {
    if |parts| == 0 then [] else PartIdSeq(parts[..|parts| - 1]) + [parts[|parts| - 1].persistentId]
  }

  /** The set of ids of a sequence of parts (the HashSet Sync builds). */
  function PartIds(parts: seq<Part>): set<uint32> {
    set i | 0 <= i < |parts| :: parts[i].persistentId
  }

  lemma PartIdsSnoc(parts: seq<Part>)
    requires |parts| > 0
    ensures PartIds(parts) == PartIds(parts[..|parts| - 1]) + {parts[|parts| - 1].persistentId}
  {
    var init := parts[..|parts| - 1];
    forall id | id in PartIds(parts) ensures id in PartIds(init) + {parts[|parts| - 1].persistentId} {
      var i :| 0 <= i < |parts| && parts[i].persistentId == id;
      if i < |init| {
        assert init[i] == parts[i];
      }
    }
    forall id | id in PartIds(init) ensures id in PartIds(parts) {
      var i :| 0 <= i < |init| && init[i].persistentId == id;
      assert parts[i] == init[i];
    }
  }

  /** Reference definition: the elements of `s` in the order of their
      first occurrence. */
  function FirstOccurrences(s: seq<uint32>): seq<uint32> {
    if |s| == 0 then []
    else
      var d := FirstOccurrences(s[..|s| - 1]);
      if s[|s| - 1] in d then d else d + [s[|s| - 1]]
  }

  /** A new, empty registry for a recycler. */
  function Empty(recycler: nat): (r: Registry)
    ensures r.Valid() && r.Count() == 0
  {
    Registry(recycler, [], map[])
  }

  /** The dictionary count equals the length of the order list. */
  lemma CountIsOrderLength(reg: Registry)
    requires reg.Valid()
    ensures reg.Count() == |reg.order|
  {
    DistinctCardinalityOf(reg.order, reg.entries.Keys);
    assert |reg.entries| == |reg.entries.Keys|;
  }

  /** Add: a part whose id is not yet registered gets a new wrapper, appended
      to the order; an id already present leaves the registry unchanged and
      yields nothing. */
  function Add(reg: Registry, p: Part): (r: (Registry, Option<RecyclablePart>))
    ensures r.0.recycler == reg.recycler
    ensures r.1.Some? <==> p.persistentId !in reg.entries
    ensures r.1.None? ==> r.0 == reg
    ensures forall id :: id in reg.entries ==> id in r.0.entries && r.0.entries[id] == reg.entries[id]
    ensures r.1.Some? ==>
      && r.1.value == RecyclablePart(p, reg.recycler)
      && r.0.order == reg.order + [p.persistentId]
      && r.0.entries == reg.entries[p.persistentId := r.1.value]
  {
    if p.persistentId in reg.entries then (reg, None)
    else
      var rp := RecyclablePart(p, reg.recycler);
      (Registry(reg.recycler, reg.order + [rp.ID()], reg.entries[rp.ID() := rp]), Some(rp))
  }

  /** Add keeps the list and the dictionary in step. */
  lemma AddKeepsValid(reg: Registry, p: Part)
    requires reg.Valid()
    ensures Add(reg, p).0.Valid()
  {
    var order := Add(reg, p).0.order;
    if p.persistentId !in reg.entries {
      forall i, j | 0 <= i < j < |order| ensures order[i] != order[j] {
        if j == |order| - 1 {
          assert order[i] == reg.order[i];
        }
      }
    }
  }

  /** Remove: deletes the id from the dictionary and, if it was there, from
      the order list; reports whether the id was present. */
  function Remove(reg: Registry, id: uint32): (r: (Registry, bool))
    ensures r.0.recycler == reg.recycler
    ensures r.1 <==> id in reg.entries
    ensures r.0.entries == reg.entries - {id}
    ensures !r.1 ==> r.0 == reg
    ensures r.1 ==> |r.0.order| == |reg.order| - 1 || id !in reg.order
  {
    if id in reg.entries then
      (reg.(order := RemoveFirst(reg.order, id), entries := reg.entries - {id}), true)
    else
      (reg, false)
  }

  /** Remove keeps the list and the dictionary in step, and the other ids
      keep their relative order. */
  lemma RemoveKeepsValid(reg: Registry, id: uint32)
    requires reg.Valid()
    ensures Remove(reg, id).0.Valid()
    ensures Remove(reg, id).0.order == Drop(reg.order, {id})
  {
    DropNoDuplicates(reg.order, {id});
    if id in reg.entries {
      RemoveFirstIsDrop(reg.order, id);
    } else {
      DropNone(reg.order, {id});
    }
  }

  /** Clear: empties both the dictionary and the order list. */
  function Clear(reg: Registry): (r: Registry)
    ensures r.Valid() && r.Count() == 0 && r.recycler == reg.recycler
  {
    Empty(reg.recycler)
  }

  /** Contains: whether the id is registered. */
  function Contains(reg: Registry, id: uint32): (r: bool)
    ensures reg.Valid() ==> (r <==> id in reg.order)
  {
    id in reg.entries
  }

  /** TryGetValue: the wrapper registered under the id, if any. */
  function TryGetValue(reg: Registry, id: uint32): (r: Option<RecyclablePart>)
    ensures r.Some? <==> Contains(reg, id)
    ensures reg.Valid() && r.Some? ==> r.value.ID() == id && r.value.recycler == reg.recycler
  {
    if id in reg.entries then Some(reg.entries[id]) else None
  }

  /** The registry's enumerator: the wrappers in insertion order. */
  function Enumerate(reg: Registry): (r: seq<RecyclablePart>)
    requires reg.Valid()
    ensures IdsOf(r) == reg.order
    ensures forall i :: 0 <= i < |r| ==> r[i] in reg.entries.Values
  {
    seq(|reg.order|, i requires 0 <= i < |reg.order| => reg.entries[reg.order[i]])
  }

  /** Adding a new part puts its wrapper last in the enumeration. */
  lemma EnumerateAdd(reg: Registry, p: Part)
    requires reg.Valid() && p.persistentId !in reg.entries
    ensures Enumerate(Add(reg, p).0) == Enumerate(reg) + [RecyclablePart(p, reg.recycler)]
  {
    var r := Add(reg, p).0;
    var a := Enumerate(r);
    var b := Enumerate(reg) + [RecyclablePart(p, reg.recycler)];
    forall i | 0 <= i < |a| ensures a[i] == b[i] {
      if i < |reg.order| {
        assert r.order[i] == reg.order[i];
      }
    }
  }

  /** Add and Remove are inverse on an id not yet present. */
  lemma AddRemove(reg: Registry, p: Part)
    requires reg.Valid() && p.persistentId !in reg.entries
    ensures Remove(Add(reg, p).0, p.persistentId) == (reg, true)
  {
    AddRemoveOrder(reg, p);
    AddRemoveEntries(reg, p);
  }

  lemma AddRemoveOrder(reg: Registry, p: Part)
    requires reg.Valid() && p.persistentId !in reg.entries
    ensures Remove(Add(reg, p).0, p.persistentId).0.order == reg.order
  {
    RemoveFirstLast(reg.order, p.persistentId);
  }

  lemma AddRemoveEntries(reg: Registry, p: Part)
    requires reg.Valid() && p.persistentId !in reg.entries
    ensures Remove(Add(reg, p).0, p.persistentId).0.entries == reg.entries
  {
    assert Add(reg, p).0.entries - {p.persistentId} == reg.entries;
  }

  /** `next` is `reg` with the wrappers `added` appended: the ids of `parts`
      that were missing, each filed under its id, in the order of the parts;
      nothing else changes. */
  ghost predicate Extends(reg: Registry, parts: seq<Part>, next: Registry, added: seq<RecyclablePart>) {
    && next.recycler == reg.recycler
    && (forall id :: id in next.entries <==> id in reg.entries || id in PartIds(parts))
    && (forall id :: id in reg.entries ==> next.entries[id] == reg.entries[id])
    && next.order == reg.order + IdsOf(added)
    && (forall k :: 0 <= k < |added| ==> added[k].ID() !in reg.entries && added[k].ID() in next.entries && next.entries[added[k].ID()] == added[k])
    && (forall k :: 0 <= k < |added| ==> added[k].part in parts && added[k].recycler == reg.recycler)
  }

  /** Adding each part in turn (the first loop of Sync, and SetVessels). */
  function AddAll(reg: Registry, parts: seq<Part>): (r: (Registry, seq<RecyclablePart>))
    ensures Extends(reg, parts, r.0, r.1)
  {
    if |parts| == 0 then
      assert reg.order + IdsOf([]) == reg.order;
      (reg, [])
    else
      var rec := AddAll(reg, parts[..|parts| - 1]);
      var step := Add(rec.0, parts[|parts| - 1]);
      AddAllStep(reg, parts, rec.0, rec.1);
      (step.0, rec.1 + (if step.1.Some? then [step.1.value] else []))
  }

  /** One more Add keeps the Extends relation. */
  lemma AddAllStep(reg: Registry, parts: seq<Part>, mid: Registry, added: seq<RecyclablePart>)
    requires |parts| > 0
    requires Extends(reg, parts[..|parts| - 1], mid, added)
    ensures var step := Add(mid, parts[|parts| - 1]);
      Extends(reg, parts, step.0, added + (if step.1.Some? then [step.1.value] else []))
  {
    var last := parts[|parts| - 1];
    AddAllStepKeys(reg, parts, mid);
    AddAllStepKept(reg, mid, last);
    AddAllStepOrder(reg, mid, added, last);
    AddAllStepAdded(reg, parts, mid, added);
  }

  lemma AddAllStepKeys(reg: Registry, parts: seq<Part>, mid: Registry)
    requires |parts| > 0
    requires forall id :: id in mid.entries <==> id in reg.entries || id in PartIds(parts[..|parts| - 1])
    ensures forall id :: id in Add(mid, parts[|parts| - 1]).0.entries <==> id in reg.entries || id in PartIds(parts)
  {
    PartIdsSnoc(parts);
  }

  lemma AddAllStepKept(reg: Registry, mid: Registry, last: Part)
    requires forall id :: id in reg.entries ==> id in mid.entries && mid.entries[id] == reg.entries[id]
    ensures forall id :: id in reg.entries ==> Add(mid, last).0.entries[id] == reg.entries[id]
  {
  }

  lemma AddAllStepAdded(reg: Registry, parts: seq<Part>, mid: Registry, added: seq<RecyclablePart>)
    requires |parts| > 0 && mid.recycler == reg.recycler
    requires forall id :: id in mid.entries <==> id in reg.entries || id in PartIds(parts[..|parts| - 1])
    requires forall k :: 0 <= k < |added| ==> added[k].ID() !in reg.entries && added[k].ID() in mid.entries && mid.entries[added[k].ID()] == added[k]
    requires forall k :: 0 <= k < |added| ==> added[k].part in parts[..|parts| - 1] && added[k].recycler == reg.recycler
    ensures var step := Add(mid, parts[|parts| - 1]);
      var added' := added + (if step.1.Some? then [step.1.value] else []);
      forall k :: 0 <= k < |added'| ==>
        && added'[k].ID() !in reg.entries && added'[k].ID() in step.0.entries && step.0.entries[added'[k].ID()] == added'[k]
        && added'[k].part in parts && added'[k].recycler == reg.recycler
  {
    var init := parts[..|parts| - 1];
    var step := Add(mid, parts[|parts| - 1]);
    var added' := added + (if step.1.Some? then [step.1.value] else []);
    forall k | 0 <= k < |added'|
      ensures added'[k].ID() !in reg.entries && added'[k].ID() in step.0.entries && step.0.entries[added'[k].ID()] == added'[k]
      ensures added'[k].part in parts && added'[k].recycler == reg.recycler
    {
      if k < |added| {
        assert added'[k] == added[k];
        assert added[k].part in init;
      }
    }
  }

  lemma AddAllStepOrder(reg: Registry, mid: Registry, added: seq<RecyclablePart>, last: Part)
    requires mid.order == reg.order + IdsOf(added)
    ensures var step := Add(mid, last);
      step.0.order == reg.order + IdsOf(added + (if step.1.Some? then [step.1.value] else []))
  {
    var step := Add(mid, last);
    if step.1.Some? {
      var added' := added + [step.1.value];
      assert added'[..|added'| - 1] == added;
    }
  }

  /** Adding parts keeps the list and the dictionary in step. */
  lemma {:induction false} AddAllKeepsValid(reg: Registry, parts: seq<Part>)
    requires reg.Valid()
    ensures AddAll(reg, parts).0.Valid()
    decreases |parts|
  {
    if |parts| > 0 {
      AddAllKeepsValid(reg, parts[..|parts| - 1]);
      AddKeepsValid(AddAll(reg, parts[..|parts| - 1]).0, parts[|parts| - 1]);
    }
  }

  /** Adding parts that are all registered changes nothing. */
  lemma {:induction false} AddAllPresent(reg: Registry, parts: seq<Part>)
    requires forall i :: 0 <= i < |parts| ==> parts[i].persistentId in reg.entries
    ensures AddAll(reg, parts) == (reg, [])
    decreases |parts|
  {
    if |parts| > 0 {
      AddAllPresent(reg, parts[..|parts| - 1]);
    }
  }

  /** Adding parts to an empty registry registers their ids in the order of
      first occurrence. */
  lemma {:induction false} AddAllFirstOccurrences(recycler: nat, parts: seq<Part>)
    ensures AddAll(Empty(recycler), parts).0.order == FirstOccurrences(PartIdSeq(parts))
    decreases |parts|
  {
    if |parts| > 0 {
      var init := parts[..|parts| - 1];
      var id := parts[|parts| - 1].persistentId;
      var mid := AddAll(Empty(recycler), init).0;
      AddAllFirstOccurrences(recycler, init);
      var ids := PartIdSeq(parts);
      assert ids[..|ids| - 1] == PartIdSeq(init);
      FirstOccurrencesHas(PartIdSeq(init));
      PartIdsHas(init);
      assert id in mid.entries <==> id in mid.order;
    }
  }

  /** First occurrences keep exactly the elements. */
  lemma {:induction false} FirstOccurrencesHas(s: seq<uint32>)
    ensures forall x :: x in FirstOccurrences(s) <==> x in s
    decreases |s|
  {
    if |s| > 0 {
      FirstOccurrencesHas(s[..|s| - 1]);
      assert s == s[..|s| - 1] + [s[|s| - 1]];
    }
  }

  /** The id set and the id sequence of the parts hold the same ids. */
  lemma PartIdsHas(parts: seq<Part>)
    ensures forall x :: x in PartIds(parts) <==> x in PartIdSeq(parts)
  {
    forall x | x in PartIdSeq(parts) ensures x in PartIds(parts) {
      var i :| 0 <= i < |parts| && PartIdSeq(parts)[i] == x;
    }
  }

  /** The ids of `snapshot` that are not kept. */
  function Gone(snapshot: seq<uint32>, keep: set<uint32>): set<uint32> {
    set x | x in snapshot && x !in keep
  }

  lemma GoneSnoc(snapshot: seq<uint32>, keep: set<uint32>)
    requires |snapshot| > 0
    ensures var last := snapshot[|snapshot| - 1];
      Gone(snapshot, keep) == Gone(snapshot[..|snapshot| - 1], keep) + (if last in keep then {} else {last})
  {
    assert snapshot == snapshot[..|snapshot| - 1] + [snapshot[|snapshot| - 1]];
  }

  /** `next` is `reg` with every id of `snapshot` outside `keep` removed,
      reported in `removed` in the order of the snapshot. */
  ghost predicate Prunes(reg: Registry, snapshot: seq<uint32>, keep: set<uint32>, next: Registry, removed: seq<uint32>) {
    && next.recycler == reg.recycler
    && (forall id :: id in next.entries <==> id in reg.entries && id !in Gone(snapshot, keep))
    && (forall id :: id in next.entries ==> next.entries[id] == reg.entries[id])
    && next.order == Drop(reg.order, Gone(snapshot, keep))
    && removed == Drop(snapshot, keep)
  }

  /** Removing, in the order of `snapshot`, every id of the snapshot that is
      not in `keep` (the second loop of Sync). */
  function RemoveAbsent(reg: Registry, snapshot: seq<uint32>, keep: set<uint32>): (r: (Registry, seq<uint32>))
    requires NoDuplicates(reg.order) && NoDuplicates(snapshot)
    requires forall i :: 0 <= i < |snapshot| ==> snapshot[i] in reg.entries
    ensures Prunes(reg, snapshot, keep, r.0, r.1)
  {
    if |snapshot| == 0 then
      assert Gone(snapshot, keep) == {};
      DropNone(reg.order, {});
      (reg, [])
    else
      var last := snapshot[|snapshot| - 1];
      NoDuplicatesInit(snapshot);
      var rec := RemoveAbsent(reg, snapshot[..|snapshot| - 1], keep);
      RemoveAbsentStep(reg, snapshot, keep, rec.0, rec.1);
      if last in keep then rec else (Remove(rec.0, last).0, rec.1 + [last])
  }

  /** One more id of the snapshot keeps the Prunes relation. */
  lemma RemoveAbsentStep(reg: Registry, snapshot: seq<uint32>, keep: set<uint32>, mid: Registry, removed: seq<uint32>)
    requires NoDuplicates(reg.order) && NoDuplicates(snapshot) && |snapshot| > 0
    requires forall i :: 0 <= i < |snapshot| ==> snapshot[i] in reg.entries
    requires Prunes(reg, snapshot[..|snapshot| - 1], keep, mid, removed)
    ensures var last := snapshot[|snapshot| - 1];
      if last in keep then Prunes(reg, snapshot, keep, mid, removed)
      else Prunes(reg, snapshot, keep, Remove(mid, last).0, removed + [last])
  {
    var init := snapshot[..|snapshot| - 1];
    var last := snapshot[|snapshot| - 1];
    GoneSnoc(snapshot, keep);
    NoDuplicatesInit(snapshot);
    assert Drop(snapshot, keep) == removed + (if last in keep then [] else [last]);
    if last !in keep {
      assert last in mid.entries by {
        assert last in reg.entries;
      }
      RemoveAbsentStepOrder(reg, Gone(init, keep), mid, last);
    } else {
      assert Gone(snapshot, keep) == Gone(init, keep);
    }
  }

  lemma RemoveAbsentStepOrder(reg: Registry, gone: set<uint32>, mid: Registry, last: uint32)
    requires NoDuplicates(reg.order) && mid.order == Drop(reg.order, gone) && last in mid.entries
    ensures Remove(mid, last).0.order == Drop(reg.order, gone + {last})
  {
    DropNoDuplicates(reg.order, gone);
    RemoveFirstIsDrop(mid.order, last);
    DropTwice(reg.order, gone, {last});
  }

  /** Removing absent ids keeps the list and the dictionary in step. */
  lemma RemoveAbsentKeepsValid(reg: Registry, snapshot: seq<uint32>, keep: set<uint32>)
    requires reg.Valid() && NoDuplicates(snapshot)
    requires forall i :: 0 <= i < |snapshot| ==> snapshot[i] in reg.entries
    ensures RemoveAbsent(reg, snapshot, keep).0.Valid()
  {
    DropNoDuplicates(reg.order, Gone(snapshot, keep));
  }

  /** Removing from a snapshot whose ids are all kept changes nothing. */
  lemma {:induction false} RemoveAbsentKeepsAll(reg: Registry, snapshot: seq<uint32>, keep: set<uint32>)
    requires NoDuplicates(reg.order) && NoDuplicates(snapshot)
    requires forall i :: 0 <= i < |snapshot| ==> snapshot[i] in reg.entries && snapshot[i] in keep
    ensures RemoveAbsent(reg, snapshot, keep) == (reg, [])
    decreases |snapshot|
  {
    if |snapshot| > 0 {
      NoDuplicatesInit(snapshot);
      RemoveAbsentKeepsAll(reg, snapshot[..|snapshot| - 1], keep);
    }
  }

  /** What Sync leaves behind and reports through its callbacks. */
  datatype SyncResult = SyncResult(registry: Registry, added: seq<RecyclablePart>, removed: seq<uint32>)

  /** Sync: registers every part not yet present, in the order given, then
      removes every registered id that is not among the parts. The survivors
      keep their wrappers and their relative order, the new wrappers follow
      them, and the callbacks report exactly the ids that came and went. */
  function Sync(reg: Registry, parts: seq<Part>): (r: SyncResult)
    requires reg.Valid()
    ensures r.registry.Valid() && r.registry.recycler == reg.recycler
    ensures forall id :: id in r.registry.entries <==> id in PartIds(parts)
    ensures forall id :: id in reg.entries && id in PartIds(parts) ==> r.registry.entries[id] == reg.entries[id]
    ensures r.registry.order == Keep(reg.order, PartIds(parts)) + IdsOf(r.added)
    ensures forall id :: id in IdsOf(r.added) <==> id in PartIds(parts) && id !in reg.entries
    ensures forall k :: 0 <= k < |r.added| ==> r.added[k].ID() in r.registry.entries && r.registry.entries[r.added[k].ID()] == r.added[k]
    ensures forall k :: 0 <= k < |r.added| ==> r.added[k].part in parts
    ensures forall id :: id in r.removed <==> id in reg.entries && id !in PartIds(parts)
    ensures NoDuplicates(r.removed)
  {
    var rec := AddAll(reg, parts);
    AddAllKeepsValid(reg, parts);
    var rem := RemoveAbsent(rec.0, rec.0.order, PartIds(parts));
    SyncSteps(reg, parts, rec.0, rec.1, rem.0, rem.1);
    SyncResult(rem.0, rec.1, rem.1)
  }

  /** The two passes of Sync together. */
  lemma SyncSteps(reg: Registry, parts: seq<Part>, mid: Registry, added: seq<RecyclablePart>, fin: Registry, removed: seq<uint32>)
    requires reg.Valid() && mid.Valid()
    requires Extends(reg, parts, mid, added)
    requires Prunes(mid, mid.order, PartIds(parts), fin, removed)
    ensures fin.Valid() && fin.recycler == reg.recycler
    ensures forall id :: id in fin.entries <==> id in PartIds(parts)
    ensures forall id :: id in reg.entries && id in PartIds(parts) ==> fin.entries[id] == reg.entries[id]
    ensures fin.order == Keep(reg.order, PartIds(parts)) + IdsOf(added)
    ensures forall id :: id in IdsOf(added) <==> id in PartIds(parts) && id !in reg.entries
    ensures forall k :: 0 <= k < |added| ==> added[k].ID() in fin.entries && fin.entries[added[k].ID()] == added[k]
    ensures forall k :: 0 <= k < |added| ==> added[k].part in parts
    ensures forall id :: id in removed <==> id in reg.entries && id !in PartIds(parts)
    ensures NoDuplicates(removed)
  {
    var keep := PartIds(parts);
    AddedAreKept(parts, added);
    SyncStepsOrder(reg, keep, mid, added, fin);
    DropNoDuplicates(mid.order, keep);
    DropNoDuplicates(mid.order, Gone(mid.order, keep));
  }

  /** Every added wrapper belongs to one of the parts, so its id is kept. */
  lemma AddedAreKept(parts: seq<Part>, added: seq<RecyclablePart>)
    requires forall k :: 0 <= k < |added| ==> added[k].part in parts
    ensures forall k :: 0 <= k < |added| ==> added[k].ID() in PartIds(parts)
  {
    forall k | 0 <= k < |added| ensures added[k].ID() in PartIds(parts) {
      var i :| 0 <= i < |parts| && parts[i] == added[k].part;
    }
  }

  lemma SyncStepsOrder(reg: Registry, keep: set<uint32>, mid: Registry, added: seq<RecyclablePart>, fin: Registry)
    requires mid.order == reg.order + IdsOf(added)
    requires forall k :: 0 <= k < |added| ==> added[k].ID() in keep
    requires fin.order == Drop(mid.order, Gone(mid.order, keep))
    ensures fin.order == Keep(reg.order, keep) + IdsOf(added)
  {
    DropIsKeep(mid.order, Gone(mid.order, keep), keep);
    KeepAppend(reg.order, IdsOf(added), keep);
    KeepAll(IdsOf(added), keep);
  }

  /** Syncing twice with the same parts: the second call changes nothing
      and reports nothing. */
  lemma SyncIdempotent(reg: Registry, parts: seq<Part>)
    requires reg.Valid()
    ensures Sync(Sync(reg, parts).registry, parts) == SyncResult(Sync(reg, parts).registry, [], [])
  {
    var r1 := Sync(reg, parts).registry;
    AddAllPresent(r1, parts);
    RemoveAbsentKeepsAll(r1, r1.order, PartIds(parts));
    DropNone(r1.order, set x | x in r1.order && x !in PartIds(parts));
  }

  /** The root parts of a list of vessels. */
  function RootParts(vessels: seq<Vessel>): (r: seq<Part>)
    ensures |r| == |vessels|
    ensures forall i :: 0 <= i < |r| ==> r[i] == vessels[i].rootPart
  {
    seq(|vessels|, i requires 0 <= i < |vessels| => vessels[i].rootPart)
  }

  /** RecyclerWindow.SetVessels: without a recycler nothing happens; with
      one the registry is cleared and refilled with the vessels' root parts.
      The second component lists the wrappers handed to the window. */
  function SetVessels(reg: Registry, hasRecycler: bool, vessels: seq<Vessel>): (r: (Registry, seq<RecyclablePart>))
    ensures hasRecycler ==> r.0.Valid()
    ensures !hasRecycler ==> r == (reg, [])
    ensures hasRecycler ==>
      && r.0.order == FirstOccurrences(PartIdSeq(RootParts(vessels)))
      && r.0.order == IdsOf(r.1)
      && (forall id :: id in r.0.entries <==> id in PartIds(RootParts(vessels)))
  {
    if !hasRecycler then (reg, [])
    else
      AddAllFirstOccurrences(reg.recycler, RootParts(vessels));
      AddAllKeepsValid(Clear(reg), RootParts(vessels));
      AddAll(Clear(reg), RootParts(vessels))
  }

  /** RecyclerWindow.SyncVessels: Sync over the vessels' root parts. */
  function SyncVessels(reg: Registry, vessels: seq<Vessel>): (r: SyncResult)
    requires reg.Valid()
    ensures forall id :: id in r.registry.entries <==> exists i :: 0 <= i < |vessels| && vessels[i].rootPart.persistentId == id
  {
    var r := Sync(reg, RootParts(vessels));
    assert forall id :: id in PartIds(RootParts(vessels)) <==> exists i :: 0 <= i < |vessels| && vessels[i].rootPart.persistentId == id;
    r
  }

  /** Syncing a cleared registry with the vessels gives what SetVessels
      builds, and reports the same wrappers as added. */
  lemma SyncClearedIsSetVessels(reg: Registry, vessels: seq<Vessel>)
    requires reg.Valid()
    ensures var s := SyncVessels(Clear(reg), vessels);
      (s.registry, s.added) == SetVessels(reg, true, vessels) && s.removed == []
  {
    var parts := RootParts(vessels);
    var mid := AddAll(Clear(reg), parts).0;
    AddAllKeepsValid(Clear(reg), parts);
    RemoveAbsentKeepsAll(mid, mid.order, PartIds(parts));
  }
}
