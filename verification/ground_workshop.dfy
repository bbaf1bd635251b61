/** The legacy ground workshop (GroundWorkshop): a crewed part that builds
    construction kits parked near its vessel, one at a time, taking the next
    one from a queue. Every physics tick it turns the elapsed time into work,
    draws structure resource and electric charge for it from the part's pool
    and hands the work to the kit. */
module GroundWorkshop {
  import opened Common
  import opened Resources
  import opened Efficiency
  import Workforce
  import Scenario = GroundConstructionScenario

  /** ModuleConstructionKit as the workshop sees it: whether it is valid,
      the kit's work left, the work already done on the part under
      construction (if there is one), the kit's completeness, and the
      distance between the kit's vessel and the workshop's vessel. */
  datatype KitModule = KitModule(
    valid: bool,
    workLeft: real,
    partWorkDone: Option<real>,
    completeness: real,
    distance: real)

  /** GroundWorkshop.KitInfo: the kit's vessel id (0 stands for Guid.Empty),
      its name, and the kit module last found on that vessel, if any. */
  datatype KitInfo = KitInfo(vesselID: nat, kitName: string, kit: Option<KitModule>) {
    predicate Valid() {
      vesselID != 0
    }

    predicate ModuleValid() {
      kit.Some? && kit.value.valid
    }
  }

  /** new KitInfo(): no vessel, no name, no module. */
  const NoKit := KitInfo(0, "", None)

  /** What FlightGlobals.FindVessel and GetKitFromVessel find: for every
      vessel in the game, the kit module on board, if there is one. */
  type Vessels = map<nat, Option<KitModule>>

  /** KitInfo.FindKit: look the kit's vessel up again and take the module on
      it (none when the vessel is gone). */
  function FindKit(k: KitInfo, vessels: Vessels): (r: KitInfo)
    ensures r.vesselID == k.vesselID && r.kitName == k.kitName
    ensures k.vesselID in vessels ==> r.kit == vessels[k.vesselID]
    ensures k.vesselID !in vessels ==> r.kit == None
  {
    k.(kit := if k.vesselID in vessels then vessels[k.vesselID] else None)
  }

  /** KitInfo.Recheck: a kit with a valid module passes as it is; any other
      one is looked up again and passes when that finds a valid module. The
      kit is returned as the call leaves it. */
  function Recheck(k: KitInfo, vessels: Vessels): (r: (bool, KitInfo))
    ensures r.0 <==> r.1.ModuleValid()
    ensures k.ModuleValid() ==> r == (true, k)
    ensures !k.ModuleValid() ==> r.1 == FindKit(k, vessels)
  {
    if k.ModuleValid() then (true, k)
    else
      var found := FindKit(k, vessels);
      (found.ModuleValid(), found)
  }

  /** update_queue: keep the queued kits whose Recheck passes, as Recheck
      leaves them, in queue order. */
  function UpdateQueue(queue: seq<KitInfo>, vessels: Vessels): (r: seq<KitInfo>)
    ensures |r| <= |queue|
    ensures forall i :: 0 <= i < |r| ==> r[i].ModuleValid()
    decreases |queue|
  {
    if |queue| == 0 then []
    else
      var c := Recheck(queue[|queue| - 1], vessels);
      UpdateQueue(queue[..|queue| - 1], vessels) + (if c.0 then [c.1] else [])
  }

  /** The filter works kit by kit: filtering a concatenation concatenates
      the filtered parts, so relative order is kept. */
  lemma {:induction false} UpdateQueueAppend(a: seq<KitInfo>, b: seq<KitInfo>, vessels: Vessels)
    ensures UpdateQueue(a + b, vessels) == UpdateQueue(a, vessels) + UpdateQueue(b, vessels)
    decreases |b|
  {
    if |b| == 0 {
      assert a + b == a;
    } else {
      var b' := b[..|b| - 1];
      assert (a + b)[..|a + b| - 1] == a + b';
      assert (a + b)[|a + b| - 1] == b[|b| - 1];
      UpdateQueueAppend(a, b', vessels);
    }
  }

  /** Exactly the passing kits survive: every kit whose Recheck passes is in
      the result, and every kit in the result is a passing queued kit. */
  lemma {:induction false} UpdateQueueKeepsPassing(queue: seq<KitInfo>, vessels: Vessels)
    ensures forall i :: 0 <= i < |queue| && Recheck(queue[i], vessels).0 ==>
      Recheck(queue[i], vessels).1 in UpdateQueue(queue, vessels)
    ensures forall k :: k in UpdateQueue(queue, vessels) ==>
      exists i :: 0 <= i < |queue| && Recheck(queue[i], vessels) == (true, k)
    decreases |queue|
  {
    if |queue| > 0 {
      var init := queue[..|queue| - 1];
      UpdateQueueKeepsPassing(init, vessels);
      assert forall i :: 0 <= i < |init| ==> init[i] == queue[i];
    }
  }

  /** A queue of valid kits passes unchanged. */
  lemma {:induction false} UpdateQueueValid(queue: seq<KitInfo>, vessels: Vessels)
    requires forall i :: 0 <= i < |queue| ==> queue[i].ModuleValid()
    ensures UpdateQueue(queue, vessels) == queue
    decreases |queue|
  {
    if |queue| > 0 {
      UpdateQueueValid(queue[..|queue| - 1], vessels);
      assert queue[..|queue| - 1] + [queue[|queue| - 1]] == queue;
    }
  }

  /** Filtering twice filters no further. */
  lemma UpdateQueueIdempotent(queue: seq<KitInfo>, vessels: Vessels)
    ensures UpdateQueue(UpdateQueue(queue, vessels), vessels) == UpdateQueue(queue, vessels)
  {
    UpdateQueueValid(UpdateQueue(queue, vessels), vessels);
  }

  /** The workshop's own state: whether it is processing the queue, the
      universal time of the last tick (negative after a reset), the queue,
      the kit under construction, the ETA and its display, the workforce,
      the distance modifier (negative when it has to be recomputed), and
      the resource pool of the part. */
  datatype Workshop = Workshop(
    working: bool,
    lastUpdateTime: real,
    queue: seq<KitInfo>,
    current: KitInfo,
    eta: real,
    etaDisplay: EtaDisplay,
    workers: nat,
    distanceMod: real,
    pool: Pool)

  /** The field initialisers of a new workshop part. */
  function NewWorkshop(pool: Pool): (w: Workshop)
    ensures !w.working && w.lastUpdateTime == -1.0 && w.queue == [] && w.current == NoKit
    ensures w.eta == -1.0 && w.etaDisplay == Stalled && w.workers == 0 && w.distanceMod == -1.0
  {
    Workshop(false, -1.0, [], NoKit, -1.0, Stalled, 0, -1.0, pool)
  }

  /** The workshop's vessel and part as the registry records them. */
  datatype Host = Host(vesselID: nat, flightID: uint32, body: string, vesselName: string)

  /** Everything the workshop reads from the game: its host, its crew, the
      distance tunables, WorkshopShutdownThreshold, DeployMaxSpeed,
      DeployMaxAV and the vessels in flight. */
  datatype Env = Env(
    host: Host,
    crew: seq<Workforce.Kerbal>,
    limits: DistanceLimits,
    threshold: real,
    maxSpeed: real,
    maxAngularVelocity: real,
    vessels: Vessels)

  /** The workshop together with the game-wide registry that start and stop
      write to. */
  datatype State = State(shop: Workshop, registry: Scenario.Registry)

  /** What RegisterWorkshop reads off the workshop. */
  function Snapshot(w: Workshop, h: Host): Scenario.WorkshopSnapshot {
    Scenario.WorkshopSnapshot(h.vesselID, h.flightID, h.body, h.vesselName,
                              w.current.Valid(), w.current.kitName, w.eta)
  }

  /** The kit's work left, less the work already done on the part under
      construction, and never negative. */
  function RemainingWork(m: KitModule): (r: real)
    ensures var left := m.workLeft - (if m.partWorkDone.Some? then m.partWorkDone.value else 0.0);
      r >= 0.0 && r >= left && (r == 0.0 || r == left)
    ensures m.partWorkDone.None? && m.workLeft >= 0.0 ==> r == m.workLeft
  {
    var left := m.workLeft - (if m.partWorkDone.Some? then m.partWorkDone.value else 0.0);
    if left < 0.0 then 0.0 else left
  }

  /** update_ETA (with update_workers and update_distance_mod): with a
      workforce and a positive distance modifier, the ETA is the time the
      workforce at that efficiency needs for the remaining work; otherwise
      it is -1 and the display says the work is stalled. */
  function UpdateEta(w: Workshop, env: Env): (r: Workshop)
    requires w.current.ModuleValid() && env.limits.Valid()
    ensures r.workers == Workforce.Workforce(env.crew)
    ensures r.distanceMod == DistanceMod(env.limits, w.current.kit.value.distance)
    ensures r.workers > 0 && r.distanceMod > 0.0 ==>
      && r.eta >= 0.0
      && Scale(Scale(r.workers as real, r.distanceMod), r.eta) == RemainingWork(w.current.kit.value)
      && r.etaDisplay == TimeLeft(r.eta)
    ensures !(r.workers > 0 && r.distanceMod > 0.0) ==> r.eta == -1.0 && r.etaDisplay == Stalled
    ensures r == w.(workers := r.workers, distanceMod := r.distanceMod, eta := r.eta, etaDisplay := r.etaDisplay)
  {
    var workers := Workforce.Workforce(env.crew);
    var dm := DistanceMod(env.limits, w.current.kit.value.distance);
    if workers > 0 && dm > 0.0 then
      var rate := Scale(workers as real, dm);
      ScalePositive(workers as real, dm);
      var eta := Ratio(RemainingWork(w.current.kit.value), rate);
      RatioInverse(RemainingWork(w.current.kit.value), rate);
      w.(workers := workers, distanceMod := dm, eta := eta, etaDisplay := TimeLeft(eta))
    else
      w.(workers := workers, distanceMod := dm, eta := -1.0, etaDisplay := Stalled)
  }

  /** start: set Working, reset the distance modifier and the tick clock,
      recompute the ETA and register. The reset distance modifier is
      immediately recomputed by update_ETA. */
  function Start(st: State, env: Env, now: real): (r: State)
    requires st.shop.current.ModuleValid() && env.limits.Valid()
    ensures r.shop.working && r.shop.lastUpdateTime == -1.0
    ensures r.shop.distanceMod == DistanceMod(env.limits, st.shop.current.kit.value.distance)
    ensures r.shop.workers == Workforce.Workforce(env.crew)
    ensures r.shop.queue == st.shop.queue && r.shop.current == st.shop.current && r.shop.pool == st.shop.pool
    ensures r.registry == Scenario.Register(st.registry, Snapshot(r.shop, env.host), now)
    ensures st.shop.current.Valid() ==> r.registry[env.host.flightID].state == Scenario.Active
  {
    var w := UpdateEta(st.shop.(working := true, distanceMod := -1.0, lastUpdateTime := -1.0), env);
    State(w, Scenario.Register(st.registry, Snapshot(w, env.host), now))
  }

  /** stop: clear Working, reset the distance modifier and the tick clock,
      and register. Nothing else changes; in particular the kit stays
      current and the ETA is kept. */
  function Stop(st: State, env: Env, now: real): (r: State)
    ensures !r.shop.working && r.shop.distanceMod == -1.0 && r.shop.lastUpdateTime == -1.0
    ensures r.shop == st.shop.(working := false, distanceMod := -1.0, lastUpdateTime := -1.0)
    ensures r.registry == Scenario.Register(st.registry, Snapshot(r.shop, env.host), now)
  {
    var w := st.shop.(working := false, distanceMod := -1.0, lastUpdateTime := -1.0);
    State(w, Scenario.Register(st.registry, Snapshot(w, env.host), now))
  }

  /** The elements of `tail` are the last |tail| elements of `whole`, in
      order. Stated element by element rather than as a slice. */
  predicate IsSuffix<T(==)>(tail: seq<T>, whole: seq<T>) {
    |tail| <= |whole| && forall i :: 0 <= i < |tail| ==> tail[i] == whole[|whole| - |tail| + i]
  }

  /** The loop of start_next_kit: while the current kit has no valid module
      and the queue is not empty, dequeue the head and look it up. Returns
      the kit it ends on and the rest of the queue. */
  function Advance(current: KitInfo, queue: seq<KitInfo>, vessels: Vessels): (r: (KitInfo, seq<KitInfo>))
    ensures |r.1| <= |queue| && IsSuffix(r.1, queue)
    ensures r.0.ModuleValid() || |r.1| == 0
    ensures current.ModuleValid() ==> r == (current, queue)
    ensures |r.1| == |queue| ==> r.0 == current
    decreases |queue|
  {
    if |queue| == 0 || current.ModuleValid() then (current, queue)
    else
      var tail := queue[1..];
      var r := Advance(FindKit(queue[0], vessels), tail, vessels);
      assert forall i :: 0 <= i < |tail| ==> tail[i] == queue[i + 1];
      assert IsSuffix(r.1, queue);
      r
  }

  /** The loop stops right after the kit it ends on, and every kit it
      dequeued before that one was found without a valid module. */
  lemma {:induction false} AdvanceSkips(current: KitInfo, queue: seq<KitInfo>, vessels: Vessels)
    requires !current.ModuleValid()
    ensures var r := Advance(current, queue, vessels);
      && (|r.1| < |queue| ==> r.0 == FindKit(queue[|queue| - |r.1| - 1], vessels))
      && forall i :: 0 <= i < |queue| - |r.1| - 1 ==> !FindKit(queue[i], vessels).ModuleValid()
    decreases |queue|
  {
    if |queue| > 0 {
      var tail := queue[1..];
      var k := FindKit(queue[0], vessels);
      assert forall i :: 0 <= i < |tail| ==> tail[i] == queue[i + 1];
      if !k.ModuleValid() {
        AdvanceSkips(k, tail, vessels);
      }
    }
  }

  /** The loop ends on the first queued kit found with a valid module, and
      it finds one exactly when there is one to find. */
  lemma AdvanceFindsAny(current: KitInfo, queue: seq<KitInfo>, vessels: Vessels)
    requires !current.ModuleValid()
    ensures Advance(current, queue, vessels).0.ModuleValid() <==>
      exists i :: 0 <= i < |queue| && FindKit(queue[i], vessels).ModuleValid()
  {
    var r := Advance(current, queue, vessels);
    AdvanceSkips(current, queue, vessels);
    if r.0.ModuleValid() {
      assert |r.1| < |queue|;
      assert FindKit(queue[|queue| - |r.1| - 1], vessels).ModuleValid();
    } else {
      assert |r.1| == 0;
      forall i | 0 <= i < |queue| ensures !FindKit(queue[i], vessels).ModuleValid() {
        if i == |queue| - 1 {
          assert r.0 == FindKit(queue[i], vessels);
        }
      }
    }
  }

  /** start_next_kit: advance through the queue to a kit with a valid
      module and start it; otherwise forget the current kit and stop. An
      empty queue resets the workshop even when the current kit is still
      valid. */
  function StartNextKit(st: State, env: Env, now: real): (r: (State, bool))
    requires env.limits.Valid()
    ensures r.1 <==> r.0.shop.current.ModuleValid()
    ensures r.1 ==> r.0.shop.working
    ensures !r.1 ==> r.0.shop.current == NoKit && !r.0.shop.working && r.0.shop.queue == []
    ensures |st.shop.queue| == 0 ==> !r.1
    ensures |r.0.shop.queue| <= |st.shop.queue|
    ensures IsSuffix(r.0.shop.queue, st.shop.queue)
    ensures r.0.shop.pool == st.shop.pool
  {
    var w := st.shop;
    if |w.queue| > 0 then
      var a := Advance(w.current, w.queue, env.vessels);
      if a.0.ModuleValid() then
        (Start(State(w.(current := a.0, queue := a.1), st.registry), env, now), true)
      else
        (Stop(State(w.(current := NoKit, queue := a.1), st.registry), env, now), false)
    else
      (Stop(State(w.(current := NoKit), st.registry), env, now), false)
  }

  /** With a non-empty queue, start_next_kit succeeds exactly when the
      current kit or some queued kit has a valid module. */
  lemma StartNextKitSucceeds(st: State, env: Env, now: real)
    requires env.limits.Valid() && |st.shop.queue| > 0
    ensures StartNextKit(st, env, now).1 <==>
      st.shop.current.ModuleValid()
      || exists i :: 0 <= i < |st.shop.queue| && FindKit(st.shop.queue[i], env.vessels).ModuleValid()
  {
    if !st.shop.current.ModuleValid() {
      AdvanceFindsAny(st.shop.current, st.shop.queue, env.vessels);
    }
  }

  /** What ModuleConstructionKit.RequiredMass answers for a proposed amount
      of work: the work it accepts, the structure resource that work needs
      (mass over density) and the electric charge it needs. */
  datatype KitDemand = KitDemand(work: real, resource: real, energy: real) {
    /** The kit accepts at most the work proposed and asks for a positive
        amount of charge. */
    predicate Sane(proposed: real) {
      0.0 <= work <= proposed && resource >= 0.0 && energy > 0.0
    }
  }

  /** The kit internals the workshop calls: RequiredMass, and
      Module.DoSomeWork as a function from the module before to the module
      after. */
  datatype KitBehaviour = KitBehaviour(
    demand: (KitModule, real) -> KitDemand,
    apply: (KitModule, real) -> KitModule)
  {
    ghost predicate Sane() {
      forall m, x :: x >= 0.0 ==> demand(m, x).Sane(x)
    }
  }

  /** The draws and the refund of one DoSomeWork call: the work done, the
      pool afterwards, the requests issued, whether the workshop stops, what
      was drawn of each channel and how much structure resource the work
      used. */
  datatype Draw = Draw(
    work: real,
    pool: Pool,
    requests: seq<Request>,
    stopped: bool,
    drawnRes: real,
    drawnEc: real,
    usedRes: real)

  /** The resource handling of DoSomeWork as written: draw the structure
      resource, stop on a zero grant; draw the charge, stop when its share
      is below the threshold; otherwise scale the resource by the charge
      share and the work by the resource share, and when less resource
      than required was used, put back required minus used. */
  function LegacyServe(pool: Pool, d: KitDemand, threshold: real): (s: Draw)
    requires pool.Valid() && d.Sane(d.work)
    ensures s.pool.Valid()
    ensures s.drawnRes == MinReal(d.resource, pool.structure)
    ensures s.drawnRes == 0.0 ==> s.stopped && s.drawnEc == 0.0 && s.pool == pool
    ensures s.drawnRes > 0.0 ==> s.drawnEc == MinReal(d.energy, pool.charge)
    ensures s.stopped <==> s.drawnRes == 0.0 || Ratio(s.drawnEc, d.energy) < threshold
    ensures s.stopped ==> s.work == 0.0 && s.usedRes == 0.0
    ensures !s.stopped ==> 0.0 <= s.work <= d.work && 0.0 <= s.usedRes <= s.drawnRes
    ensures s.pool.charge == pool.charge - s.drawnEc
    ensures s.pool.structure == pool.structure - s.drawnRes
      + (if !s.stopped && s.usedRes < d.resource then d.resource - s.usedRes else 0.0)
  {
    var (p1, haveRes) := RequestResource(pool, Structure, d.resource);
    var log1 := [Request(Structure, d.resource)];
    if haveRes == 0.0 then
      Draw(0.0, p1, log1, true, 0.0, 0.0, 0.0)
    else
      var (p2, haveEc) := RequestResource(p1, ElectricCharge, d.energy);
      var log2 := log1 + [Request(ElectricCharge, d.energy)];
      var ecShare := Ratio(haveEc, d.energy);
      if ecShare < threshold then
        Draw(0.0, p2, log2, true, haveRes, haveEc, 0.0)
      else
        RatioBounds(haveEc, d.energy);
        var used := Scale(haveRes, ecShare);
        ScaleWithin(haveRes, ecShare);
        var resShare := Ratio(used, d.resource);
        RatioBounds(used, d.resource);
        var work := Scale(d.work, resShare);
        ScaleWithin(d.work, resShare);
        if used < d.resource then
          var (p3, _) := RequestResource(p2, Structure, used - d.resource);
          Draw(work, p3, log2 + [Request(Structure, used - d.resource)], false, haveRes, haveEc, used)
        else
          Draw(work, p2, log2, false, haveRes, haveEc, used)
  }

  /** The legacy refund conserves the structure resource (the pool loses
      exactly what the work used) exactly when the full requirement was
      drawn; whenever the pool was short it credits more than was drawn. */
  lemma LegacyServeConservesIff(pool: Pool, d: KitDemand, threshold: real)
    requires pool.Valid() && d.Sane(d.work)
    ensures var s := LegacyServe(pool, d, threshold);
      !s.stopped ==> (s.pool.structure == pool.structure - s.usedRes <==> s.drawnRes == d.resource)
  {
  }

  /** 10 units required, 4 in the pool, charge plenty: the work uses the 4
      units drawn, yet the refund of 10 - 4 leaves 6 in the pool. */
  lemma LegacyRefundOverCredits()
    ensures var s := LegacyServe(Pool(4.0, 100.0), KitDemand(1.0, 10.0, 1.0), 0.5);
      && !s.stopped
      && s.usedRes == 4.0
      && s.pool.structure == 6.0
      && s.pool.structure > 4.0 - s.usedRes
  {
    var s := LegacyServe(Pool(4.0, 100.0), KitDemand(1.0, 10.0, 1.0), 0.5);
    assert Ratio(1.0, 1.0) == 1.0;
    assert s.usedRes == Scale(4.0, 1.0) == 4.0;
  }

  /** 10 units required, 4 in the pool, only 0.1 of the 1 unit of charge
      available: the workshop stops and the 4 units drawn are gone. */
  lemma LegacyAbortKeepsDraw()
    ensures var s := LegacyServe(Pool(4.0, 0.1), KitDemand(1.0, 10.0, 1.0), 0.5);
      && s.stopped && s.work == 0.0
      && s.drawnRes == 4.0
      && s.pool == Pool(0.0, 0.0)
  {
    var s := LegacyServe(Pool(4.0, 0.1), KitDemand(1.0, 10.0, 1.0), 0.5);
    assert Ratio(0.1, 1.0) == 0.1;
  }

  /** The resource handling with the evident intent: on a stop everything
      drawn goes back, and after work the structure resource drawn but not
      used goes back. */
  function ServeCorrected(pool: Pool, d: KitDemand, threshold: real): (s: Draw)
    requires pool.Valid() && d.Sane(d.work)
    ensures s.pool.Valid()
    ensures s.stopped <==> LegacyServe(pool, d, threshold).stopped
    ensures s.work == LegacyServe(pool, d, threshold).work
    ensures s.drawnRes == LegacyServe(pool, d, threshold).drawnRes
    ensures s.stopped ==> s.pool == pool
    ensures !s.stopped ==> s.pool.structure == pool.structure - s.usedRes
    ensures !s.stopped ==> s.pool.charge == pool.charge - s.drawnEc
  {
    var legacy := LegacyServe(pool, d, threshold);
    var (p1, haveRes) := RequestResource(pool, Structure, d.resource);
    var log1 := [Request(Structure, d.resource)];
    if haveRes == 0.0 then
      Draw(0.0, p1, log1, true, 0.0, 0.0, 0.0)
    else
      var (p2, haveEc) := RequestResource(p1, ElectricCharge, d.energy);
      var log2 := log1 + [Request(ElectricCharge, d.energy)];
      var ecShare := Ratio(haveEc, d.energy);
      if ecShare < threshold then
        var (p3, _) := RequestResource(p2, Structure, -haveRes);
        var (p4, _) := RequestResource(p3, ElectricCharge, -haveEc);
        assert p4 == pool;
        Draw(0.0, p4, log2 + [Request(Structure, -haveRes), Request(ElectricCharge, -haveEc)],
             true, haveRes, haveEc, 0.0)
      else
        RatioBounds(haveEc, d.energy);
        var used := Scale(haveRes, ecShare);
        ScaleWithin(haveRes, ecShare);
        var resShare := Ratio(used, d.resource);
        RatioBounds(used, d.resource);
        var work := Scale(d.work, resShare);
        if used < haveRes then
          var (p3, _) := RequestResource(p2, Structure, used - haveRes);
          Draw(work, p3, log2 + [Request(Structure, used - haveRes)], false, haveRes, haveEc, used)
        else
          Draw(work, p2, log2, false, haveRes, haveEc, used)
  }

  /** Which reading of the defective branches of DoSomeWork to run: the
      code as written, or its evident intent (ServeCorrected for the
      resource handling, LeaveKit for the too-far branch and for a kit that
      was completed). */
  datatype Revision = AsWritten | Corrected

  /** How one DoSomeWork call ended. */
  datatype Outcome = TooFar | NoResource | NoEnergy | Worked(work: real)

  /** One DoSomeWork call: the state afterwards, the work still available
      and how it ended. */
  datatype Step = Step(state: State, remaining: real, outcome: Outcome)

  /** The distance modifier DoSomeWork works with: recomputed when it was
      reset, kept otherwise. */
  function EffectiveDistanceMod(w: Workshop, env: Env): (dm: real)
    requires w.current.kit.Some? && env.limits.Valid()
    ensures dm >= 0.0
    ensures w.distanceMod >= 0.0 ==> dm == w.distanceMod
    ensures w.distanceMod < 0.0 ==> dm == DistanceMod(env.limits, w.current.kit.value.distance)
  {
    if w.distanceMod < 0.0 then DistanceMod(env.limits, w.current.kit.value.distance)
    else w.distanceMod
  }

  /** The kit's answer for the work available at the current efficiency. */
  function Demand(w: Workshop, env: Env, kb: KitBehaviour, available: real): (d: KitDemand)
    requires w.current.kit.Some? && env.limits.Valid() && kb.Sane() && available > 0.0
    ensures d.Sane(Scale(available, EffectiveDistanceMod(w, env)))
  {
    var dm := EffectiveDistanceMod(w, env);
    ScaleWithin(available, 0.0);
    ScaleMonotonic(available, 0.0, dm);
    kb.demand(w.current.kit.value, Scale(available, dm))
  }

  /** DoSomeWork calls start_next_kit to move on from the current kit, both
      when it is out of range and when it is complete. As written, a current
      kit whose module is still valid is not left: with kits queued it is
      started again, and the queue is untouched. */
  lemma ValidKitRestarts(st: State, env: Env, now: real)
    requires env.limits.Valid()
    requires st.shop.current.ModuleValid() && |st.shop.queue| > 0
    ensures var r := StartNextKit(st, env, now);
      r.1 && r.0.shop.current == st.shop.current && r.0.shop.queue == st.shop.queue && r.0.shop.working
  {
  }

  /** Moving on with the evident intent: leave the current kit and switch to
      the next kit in line with a valid module, or stop when there is none. */
  function LeaveKit(st: State, env: Env, now: real): (r: (State, bool))
    requires env.limits.Valid()
    ensures !r.0.shop.working || |r.0.shop.queue| < |st.shop.queue|
    ensures r.1 <==> r.0.shop.current.ModuleValid()
    ensures r.1 <==> exists i :: 0 <= i < |st.shop.queue| && FindKit(st.shop.queue[i], env.vessels).ModuleValid()
  {
    if |st.shop.queue| > 0 then
      StartNextKitSucceeds(State(st.shop.(current := NoKit), st.registry), env, now);
      StartNextKit(State(st.shop.(current := NoKit), st.registry), env, now)
    else
      StartNextKit(State(st.shop.(current := NoKit), st.registry), env, now)
  }

  /** Moving on from the current kit in the chosen revision. */
  function NextKitIn(rev: Revision, st: State, env: Env, now: real): State
    requires env.limits.Valid()
  {
    if rev == AsWritten then StartNextKit(st, env, now).0 else LeaveKit(st, env, now).0
  }

  /** After work was done: hand it to the kit, move on when the kit is
      complete, and convert the work back into available work with the
      distance modifier the workshop has afterwards. */
  function AfterWork(rev: Revision, st: State, env: Env, kb: KitBehaviour, available: real, work: real, now: real): (r: Step)
    requires st.shop.current.kit.Some? && env.limits.Valid()
    ensures r.outcome == Worked(work)
    ensures r.state.shop.pool == st.shop.pool
    ensures r.state.shop.working ==> r.state.shop.current.kit.Some?
    ensures r.state.shop.distanceMod > 0.0 ==> r.remaining == available - Ratio(work, r.state.shop.distanceMod)
    ensures r.state.shop.distanceMod == 0.0 ==> r.remaining == 0.0
    ensures kb.apply(st.shop.current.kit.value, work).completeness < 1.0 ==>
      r.state == State(st.shop.(current := st.shop.current.(kit := Some(kb.apply(st.shop.current.kit.value, work)))), st.registry)
    ensures kb.apply(st.shop.current.kit.value, work).completeness >= 1.0 ==>
      r.state == NextKitIn(rev, State(st.shop.(current := st.shop.current.(kit := Some(kb.apply(st.shop.current.kit.value, work)))), st.registry), env, now)
  {
    var m := kb.apply(st.shop.current.kit.value, work);
    var st1 := State(st.shop.(current := st.shop.current.(kit := Some(m))), st.registry);
    var st2 := if m.completeness >= 1.0 then NextKitIn(rev, st1, env, now) else st1;
    var dm := st2.shop.distanceMod;
    var remaining :=
      if dm > 0.0 then available - Ratio(work, dm)
      else if dm == 0.0 then 0.0
      else available + Ratio(work, -dm);
    Step(st2, remaining, Worked(work))
  }
  /** As written, a kit completed by the work but still valid, with kits
      queued, is started again: it stays the kit under construction, the
      workshop keeps working and the queue does not move. */
  lemma CompletedKitRestarts(st: State, env: Env, kb: KitBehaviour, available: real, work: real, now: real)
    requires st.shop.current.kit.Some? && env.limits.Valid() && |st.shop.queue| > 0
    requires var m := kb.apply(st.shop.current.kit.value, work); m.completeness >= 1.0 && m.valid
    ensures var r := AfterWork(AsWritten, st, env, kb, available, work, now);
      && r.state.shop.current.kit == Some(kb.apply(st.shop.current.kit.value, work))
      && r.state.shop.working && r.state.shop.queue == st.shop.queue
  {
    var m := kb.apply(st.shop.current.kit.value, work);
    ValidKitRestarts(State(st.shop.(current := st.shop.current.(kit := Some(m))), st.registry), env, now);
  }

  /** Corrected, a completed kit is left: the workshop stops, or the next
      kit comes off the queue. */
  lemma CompletedKitLeft(st: State, env: Env, kb: KitBehaviour, available: real, work: real, now: real)
    requires st.shop.current.kit.Some? && env.limits.Valid()
    requires kb.apply(st.shop.current.kit.value, work).completeness >= 1.0
    ensures var r := AfterWork(Corrected, st, env, kb, available, work, now);
      !r.state.shop.working || |r.state.shop.queue| < |st.shop.queue|
  {
  }

  /** The resource handling in the chosen revision. */
  function ServeIn(rev: Revision, pool: Pool, d: KitDemand, threshold: real): Draw
    requires pool.Valid() && d.Sane(d.work)
  {
    if rev == AsWritten then LegacyServe(pool, d, threshold) else ServeCorrected(pool, d, threshold)
  }

  /** GroundWorkshop.DoSomeWork, in the given revision. */
  function DoSomeWork(rev: Revision, st: State, env: Env, kb: KitBehaviour, available: real, now: real): (r: Step)
    requires st.shop.current.kit.Some? && st.shop.pool.Valid()
    requires env.limits.Valid() && kb.Sane() && available > 0.0
    ensures r.state.shop.pool.Valid()
    ensures r.state.shop.working ==> r.state.shop.current.kit.Some?
    ensures r.outcome == TooFar <==> EffectiveDistanceMod(st.shop, env) == 0.0
    ensures r.outcome == TooFar ==>
      r.remaining == available && r.state == NextKitIn(rev, State(st.shop.(distanceMod := 0.0), st.registry), env, now)
    ensures rev == Corrected && r.outcome == TooFar ==>
      !r.state.shop.working || |r.state.shop.queue| < |st.shop.queue|
    ensures rev == Corrected && (r.outcome == NoResource || r.outcome == NoEnergy) ==>
      r.state.shop.pool == st.shop.pool
    ensures r.outcome == NoResource <==>
      EffectiveDistanceMod(st.shop, env) != 0.0
      && (Demand(st.shop, env, kb, available).resource == 0.0 || st.shop.pool.structure == 0.0)
    ensures r.outcome == NoResource || r.outcome == NoEnergy ==> r.remaining == 0.0 && !r.state.shop.working
    ensures r.outcome.Worked? ==>
      0.0 <= r.outcome.work <= Scale(available, EffectiveDistanceMod(st.shop, env))
  {
    var w := st.shop;
    var dm := EffectiveDistanceMod(w, env);
    var st1 := State(w.(distanceMod := dm), st.registry);
    if dm == 0.0 then
      Step(NextKitIn(rev, st1, env, now), available, TooFar)
    else
      var d := Demand(w, env, kb, available);
      var s := ServeIn(rev, w.pool, d, env.threshold);
      var st2 := State(st1.shop.(pool := s.pool), st1.registry);
      if s.stopped then
        Step(Stop(st2, env, now), 0.0, if s.drawnRes == 0.0 then NoResource else NoEnergy)
      else
        AfterWork(rev, st2, env, kb, available, s.work, now)
  }

  /** When no kit switch happens, the work done is paid for out of the work
      available: what remains lies between zero and what was available. */
  lemma DoSomeWorkSpends(rev: Revision, st: State, env: Env, kb: KitBehaviour, available: real, now: real)
    requires st.shop.current.kit.Some? && st.shop.pool.Valid()
    requires env.limits.Valid() && kb.Sane() && available > 0.0
    ensures var r := DoSomeWork(rev, st, env, kb, available, now);
      r.outcome.Worked? && r.state.shop.distanceMod == EffectiveDistanceMod(st.shop, env) ==>
        0.0 <= r.remaining <= available
  {
    var r := DoSomeWork(rev, st, env, kb, available, now);
    var dm := EffectiveDistanceMod(st.shop, env);
    if r.outcome.Worked? && r.state.shop.distanceMod == dm {
      assert dm > 0.0;
      RatioAtMost(r.outcome.work, dm, available);
      RatioInverse(r.outcome.work, dm);
    }
  }

  /** What the FixedUpdate loop keeps true: the pool is valid, and a
      working workshop has a kit module to work on. */
  ghost predicate Runnable(st: State) {
    st.shop.pool.Valid() && (st.shop.working ==> st.shop.current.kit.Some?)
  }

  /** How a FixedUpdate loop ended: the state, the work left over, and
      whether the fuel bound cut the loop short. */
  datatype Run = Run(state: State, remaining: real, outOfFuel: bool)

  /** The loop `while(Working && available_work > 0)` of FixedUpdate, cut
      after `fuel` iterations. */
  function RunLoop(rev: Revision, st: State, env: Env, kb: KitBehaviour, available: real, now: real, fuel: nat): (r: Run)
    requires Runnable(st) && env.limits.Valid() && kb.Sane()
    ensures Runnable(r.state)
    ensures !r.outOfFuel ==> !r.state.shop.working || r.remaining <= 0.0
    ensures r.outOfFuel ==> r.state.shop.working && r.remaining > 0.0
    decreases fuel
  {
    if !st.shop.working || available <= 0.0 then Run(st, available, false)
    else if fuel == 0 then Run(st, available, true)
    else
      var s := DoSomeWork(rev, st, env, kb, available, now);
      RunLoop(rev, s.state, env, kb, s.remaining, now, fuel - 1)
  }

  /** An iteration whose outcome at fuel f + 1 is its outcome at fuel f one
      step later, started in a state whose invariant every step keeps, has
      at every fuel the outcome it has at fuel 0. */
  lemma {:induction false} Persists<S>(p: S -> bool, next: S -> S, q: (S, nat) -> bool, s: S, fuel: nat)
    requires forall x {:trigger next(x)} :: p(x) ==> p(next(x))
    requires forall x :: p(x) ==> q(x, 0)
    requires forall x, f: nat {:trigger q(next(x), f)} :: p(x) ==> (q(x, f + 1) <==> q(next(x), f))
    requires p(s)
    ensures q(s, fuel)
    decreases fuel
  {
    if fuel > 0 {
      Persists(p, next, q, next(s), fuel - 1);
    }
  }

  /** With no fuel left, a working loop with budget reports that it ran out. */
  lemma OutOfFuelAtZero(rev: Revision, st: State, env: Env, kb: KitBehaviour, available: real, now: real)
    requires Runnable(st) && env.limits.Valid() && kb.Sane()
    requires st.shop.working && available > 0.0
    ensures RunLoop(rev, st, env, kb, available, now, 0).outOfFuel
  {
  }

  /** The state the too-far branch gets stuck in: working on a kit whose
      module is valid but out of range, with the distance modifier reset or
      zero, and kits waiting in the queue. */
  ghost predicate TooFarStuck(st: State, env: Env) {
    && Runnable(st) && env.limits.Valid()
    && st.shop.working && st.shop.current.ModuleValid() && |st.shop.queue| > 0
    && DistanceMod(env.limits, st.shop.current.kit.value.distance) == 0.0
    && st.shop.distanceMod <= 0.0
  }

  /** A working workshop whose current kit is valid but out of range, with
      kits waiting in the queue, never leaves the loop: the too-far branch
      restarts the same kit, gives all the work back, and the next
      iteration finds the same state. */
  lemma TooFarNeverEnds(st: State, env: Env, kb: KitBehaviour, available: real, now: real, fuel: nat)
    requires TooFarStuck(st, env) && kb.Sane() && available > 0.0
    ensures RunLoop(AsWritten, st, env, kb, available, now, fuel).outOfFuel
  {
    var p := (s: State) => TooFarStuck(s, env);
    var next := (s: State) => if TooFarStuck(s, env) then DoSomeWork(AsWritten, s, env, kb, available, now).state else s;
    var q := (s: State, f: nat) => Runnable(s) && RunLoop(AsWritten, s, env, kb, available, now, f).outOfFuel;
    forall x | p(x) ensures p(next(x)) {
      TooFarRestarts(x, env, kb, available, now);
    }
    forall x | p(x) ensures q(x, 0) {
      OutOfFuelAtZero(AsWritten, x, env, kb, available, now);
    }
    forall x, f: nat | p(x) ensures q(x, f + 1) <==> q(next(x), f) {
      TooFarIterates(x, env, kb, available, now, f);
    }
    Persists(p, next, q, st, fuel);
  }

  /** The loop from a stuck state, with fuel f + 1, ends as the loop with
      fuel f does from the state the too-far iteration leaves. */
  lemma TooFarIterates(st: State, env: Env, kb: KitBehaviour, available: real, now: real, f: nat)
    requires TooFarStuck(st, env) && kb.Sane() && available > 0.0
    ensures var s := DoSomeWork(AsWritten, st, env, kb, available, now);
      && Runnable(s.state)
      && RunLoop(AsWritten, st, env, kb, available, now, f + 1).outOfFuel == RunLoop(AsWritten, s.state, env, kb, available, now, f).outOfFuel
  {
    TooFarRestarts(st, env, kb, available, now);
  }

  /** One iteration of that loop: the too-far branch returns the whole
      budget and leaves the workshop stuck in the same way. */
  lemma TooFarRestarts(st: State, env: Env, kb: KitBehaviour, available: real, now: real)
    requires TooFarStuck(st, env) && kb.Sane() && available > 0.0
    ensures var s := DoSomeWork(AsWritten, st, env, kb, available, now);
      s.remaining == available && TooFarStuck(s.state, env)
  {
    assert EffectiveDistanceMod(st.shop, env) == 0.0;
    var st1 := State(st.shop.(distanceMod := 0.0), st.registry);
    ValidKitRestarts(st1, env, now);
  }

  /** With the corrected too-far branch, every such iteration either stops
      the workshop or takes a kit off the queue, so at most as many of them
      follow one another as there are queued kits. */
  lemma TooFarCorrectedProgresses(st: State, env: Env, now: real)
    requires env.limits.Valid() && st.shop.working
    ensures var r := LeaveKit(st, env, now);
      !r.0.shop.working || |r.0.shop.queue| < |st.shop.queue|
  {
  }

  /** GetDeltaTime's inputs from the game: whether the scene is a flight
      scene, Time.timeSinceLevelLoad, FlightGlobals.ready, the universal
      time and TimeWarp.fixedDeltaTime. */
  datatype Clock = Clock(inFlight: bool, sinceLevelLoad: real, flightReady: bool, now: real, fixedDeltaTime: real)

  predicate Ready(c: Clock) {
    c.sinceLevelLoad >= 1.0 && c.flightReady
  }

  /** GetDeltaTime: the time to credit and the new LastUpdateTime. */
  function GetDeltaTime(last: real, c: Clock): (r: (real, real))
    ensures !Ready(c) ==> r == (-1.0, last)
    ensures Ready(c) ==> r.1 == c.now
    ensures Ready(c) && last < 0.0 ==> r.0 == c.fixedDeltaTime
    ensures Ready(c) && last >= 0.0 ==> r.0 + last == c.now
  {
    if !Ready(c) then (-1.0, last)
    else if last < 0.0 then (c.fixedDeltaTime, c.now)
    else (c.now - last, c.now)
  }

  /** The time credited over ready ticks at the given universal times,
      starting from LastUpdateTime `last`. */
  function Credited(last: real, times: seq<real>, fixedDeltaTime: real): real
    decreases |times|
  {
    if |times| == 0 then 0.0
    else
      var r := GetDeltaTime(last, Clock(true, 1.0, true, times[0], fixedDeltaTime));
      r.0 + Credited(r.1, times[1..], fixedDeltaTime)
  }

  /** Successive deltas telescope: after a reset a run of ticks is credited
      one fixed step plus the time between its first and last tick, and
      without a reset the time since the recorded one. */
  lemma {:induction false} CreditedTelescopes(last: real, times: seq<real>, fixedDeltaTime: real)
    requires |times| > 0
    requires forall i :: 0 <= i < |times| ==> times[i] >= 0.0
    ensures last < 0.0 ==> Credited(last, times, fixedDeltaTime) == fixedDeltaTime + times[|times| - 1] - times[0]
    ensures last >= 0.0 ==> Credited(last, times, fixedDeltaTime) == times[|times| - 1] - last
    decreases |times|
  {
    var rest := times[1..];
    if |rest| > 0 {
      CreditedTelescopes(times[0], rest, fixedDeltaTime);
      assert rest[|rest| - 1] == times[|times| - 1];
    }
  }

  /** How FixedUpdate gets to its loop: it returns early, leaving a state,
      or enters the loop in a state with a work budget. */
  datatype Tick = Skip(state: State) | Enter(state: State, budget: real)

  /** FixedUpdate up to its loop: nothing outside flight, when not working
      or without workers; nothing but the clock until the game is ready;
      otherwise recheck the current kit, moving on when it is gone, and turn
      the elapsed time into work with the workers counted at that point,
      that is, recounted from the crew when a kit switch restarted the
      workshop. */
  function TickStart(st: State, env: Env, c: Clock): (t: Tick)
    requires Runnable(st) && env.limits.Valid()
    ensures Runnable(t.state)
    ensures !c.inFlight || !st.shop.working || st.shop.workers == 0 ==> t == Skip(st)
    ensures !Ready(c) ==> t == Skip(st)
    ensures t.Enter? ==>
      && c.inFlight && st.shop.working && st.shop.workers != 0 && Ready(c)
      && t.state.shop.working && t.state.shop.current.ModuleValid()
    ensures t.Enter? ==> var dt := GetDeltaTime(st.shop.lastUpdateTime, c).0;
      && dt >= 0.0
      && t.budget == Scale(t.state.shop.workers as real, dt)
      && (Recheck(st.shop.current, env.vessels).0 ==> t.budget == Scale(st.shop.workers as real, dt))
      && (!Recheck(st.shop.current, env.vessels).0 ==> t.budget == Scale(Workforce.Workforce(env.crew) as real, dt))
  {
    if !c.inFlight || !st.shop.working || st.shop.workers == 0 then Skip(st)
    else
      var (dt, last) := GetDeltaTime(st.shop.lastUpdateTime, c);
      var st1 := State(st.shop.(lastUpdateTime := last), st.registry);
      if dt < 0.0 then Skip(st1)
      else
        var (ok, kit) := Recheck(st1.shop.current, env.vessels);
        var st2 := State(st1.shop.(current := kit), st1.registry);
        var (st3, go) := if ok then (st2, true) else StartNextKit(st2, env, c.now);
        if !go then Skip(st3)
        else Enter(st3, Scale(st3.shop.workers as real, dt))
  }

  /** FixedUpdate: the start of the tick, then the work loop with the
      tick's budget. */
  function FixedUpdate(rev: Revision, st: State, env: Env, kb: KitBehaviour, c: Clock, fuel: nat): (r: Run)
    requires Runnable(st) && env.limits.Valid() && kb.Sane()
    ensures Runnable(r.state)
    ensures !c.inFlight || !st.shop.working || st.shop.workers == 0 ==> r == Run(st, 0.0, false)
    ensures !Ready(c) ==> r.state == st && !r.outOfFuel
    ensures !r.outOfFuel ==> !r.state.shop.working || r.remaining <= 0.0
    ensures TickStart(st, env, c).Skip? ==> r == Run(TickStart(st, env, c).state, 0.0, false)
    ensures TickStart(st, env, c).Enter? ==>
      r == RunLoop(rev, TickStart(st, env, c).state, env, kb, TickStart(st, env, c).budget, c.now, fuel)
  {
    match TickStart(st, env, c)
    case Skip(s) => Run(s, 0.0, false)
    case Enter(s, budget) => RunLoop(rev, s, env, kb, budget, c.now, fuel)
  }

  /** A tick whose kit is gone and whose next kit is started works with the
      crew's workforce, whatever the workers count was before: with no
      engineer left on board the budget is zero and no work is done. */
  lemma SwitchedTickUsesCrew(rev: Revision, st: State, env: Env, kb: KitBehaviour, c: Clock, fuel: nat)
    requires Runnable(st) && env.limits.Valid() && kb.Sane()
    requires TickStart(st, env, c).Enter? && !Recheck(st.shop.current, env.vessels).0
    requires Workforce.Workforce(env.crew) == 0
    ensures var r := FixedUpdate(rev, st, env, kb, c, fuel);
      r.remaining == 0.0 && !r.outOfFuel && r.state == TickStart(st, env, c).state
  {
    var t := TickStart(st, env, c);
    assert t.budget == Scale(0.0, GetDeltaTime(st.shop.lastUpdateTime, c).0);
  }

  /** Why can_construct refuses, in the order it checks. */
  datatype Refusal = NotLanded | NoEngineers | Moving | Rotating

  /** The vessel's motion as can_construct reads it. */
  datatype Motion = Motion(landed: bool, horizontalSpeed: real, sqrAngularVelocity: real)

  /** can_construct: landed, with engineers, not moving and not rotating;
      the first failed check is the one reported. */
  function CanConstruct(m: Motion, workers: nat, maxSpeed: real, maxAngularVelocity: real): (r: Option<Refusal>)
    ensures r.None? <==>
      m.landed && workers != 0 && m.horizontalSpeed <= maxSpeed && m.sqrAngularVelocity <= maxAngularVelocity
    ensures r == Some(NotLanded) <==> !m.landed
    ensures r == Some(NoEngineers) <==> m.landed && workers == 0
    ensures r == Some(Moving) <==> m.landed && workers != 0 && m.horizontalSpeed > maxSpeed
    ensures r == Some(Rotating) <==>
      m.landed && workers != 0 && m.horizontalSpeed <= maxSpeed && m.sqrAngularVelocity > maxAngularVelocity
  {
    if !m.landed then Some(NotLanded)
    else if workers == 0 then Some(NoEngineers)
    else if m.horizontalSpeed > maxSpeed then Some(Moving)
    else if m.sqrAngularVelocity > maxAngularVelocity then Some(Rotating)
    else None
  }

  /** Update, once per frame: a working workshop with a valid kit refreshes
      its ETA when it can construct and stops otherwise; with the window
      open, the queue is filtered. */
  function FrameUpdate(st: State, env: Env, m: Motion, showWindow: bool, now: real): (r: State)
    requires env.limits.Valid()
    ensures (&& st.shop.working && st.shop.current.ModuleValid()
             && CanConstruct(m, st.shop.workers, env.maxSpeed, env.maxAngularVelocity).Some?) ==> !r.shop.working
    ensures (&& st.shop.working && st.shop.current.ModuleValid()
             && CanConstruct(m, st.shop.workers, env.maxSpeed, env.maxAngularVelocity).None?) ==>
      && r.shop.working && r.registry == st.registry
      && r.shop.workers == Workforce.Workforce(env.crew)
      && r.shop.eta == UpdateEta(st.shop, env).eta && r.shop.etaDisplay == UpdateEta(st.shop, env).etaDisplay
    ensures !(st.shop.working && st.shop.current.ModuleValid()) ==> r.shop.working == st.shop.working
    ensures showWindow ==> r.shop.queue == UpdateQueue(st.shop.queue, env.vessels)
    ensures !showWindow ==> r.shop.queue == st.shop.queue
    ensures r.shop.pool == st.shop.pool && r.shop.current == st.shop.current
  {
    var st1 :=
      if st.shop.working && st.shop.current.ModuleValid() then
        if CanConstruct(m, st.shop.workers, env.maxSpeed, env.maxAngularVelocity).None? then
          State(UpdateEta(st.shop, env), st.registry)
        else Stop(st, env, now)
      else st;
    if showWindow then State(st1.shop.(queue := UpdateQueue(st1.shop.queue, env.vessels)), st1.registry)
    else st1
  }
}
