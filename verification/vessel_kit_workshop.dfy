/** The kit workshop of the current workshop model: per-step negotiation of
    structure resource and electric charge for a slice of work, applying the
    affordable work to the current task, the ETA projection with its
    check-in hysteresis, and the sorting of candidate kits into unbuilt and
    built lists. */
module VesselKitWorkshop {
  import opened Common
  import opened Resources
  import Efficiency

  /** DIYKit.Requirements as returned by Kit.RequirementsForWork(work):
      the resource and charge needed to do `work` units of work (the kit may
      answer with less work than was asked for). */
  datatype Requirements = Requirements(resourceAmount: real, energy: real, work: real) {
    predicate WellFormed() {
      resourceAmount >= 0.0 && energy >= 0.0 && work >= 0.0
    }
  }

  /** Why a negotiation did no work. */
  datatype Shortage = NoShortage | ResourceShortage | EnergyShortage

  /** The outcome of serve_requirements: the work that can be done, the pool
      afterwards, every RequestResource call made (draws and refunds), the
      amounts granted and used per channel, and whether stop() was called. */
  datatype Serving = Serving(
    work: real,
    pool: Pool,
    requests: seq<Request>,
    haveRes: real,
    haveEc: real,
    usedRes: real,
    usedEc: real,
    fraction: real,
    shortage: Shortage,
    stopped: bool)

  /** Give back, on channel `c`, what was granted but not used. */
  function RefundUnused(pool: Pool, log: seq<Request>, c: Channel, have: real, used: real): (r: (Pool, seq<Request>))
    requires pool.Valid() && 0.0 <= used <= have
    ensures r.0.Valid()
    ensures r.0.Amount(c) == pool.Amount(c) + (have - used)
    ensures forall d :: d != c ==> r.0.Amount(d) == pool.Amount(d)
    ensures Refunded(r.1, c) == Refunded(log, c) + (have - used)
    ensures forall d :: d != c ==> Refunded(r.1, d) == Refunded(log, d)
    ensures forall d :: Requested(r.1, d) == Requested(log, d)
    ensures used == have ==> r == (pool, log)
  {
    if used < have then
      var log' := log + [Request(c, used - have)];
      assert log'[..|log'| - 1] == log;
      (RequestResource(pool, c, used - have).0, log')
    else (pool, log)
  }

  /** The `end:` block of serve_requirements: give back what was granted
      but not used, then stop the workshop if no work can be done. */
  function Settle(pool: Pool, log: seq<Request>, haveRes: real, haveEc: real,
                  usedRes: real, usedEc: real, fraction: real, work: real, shortage: Shortage): (s: Serving)
    requires pool.Valid()
    requires 0.0 <= usedRes <= haveRes && 0.0 <= usedEc <= haveEc
    ensures s.pool.Valid()
    ensures s.pool.structure == pool.structure + (haveRes - usedRes)
    ensures s.pool.charge == pool.charge + (haveEc - usedEc)
    ensures Refunded(s.requests, Structure) == Refunded(log, Structure) + (haveRes - usedRes)
    ensures Refunded(s.requests, ElectricCharge) == Refunded(log, ElectricCharge) + (haveEc - usedEc)
    ensures Requested(s.requests, Structure) == Requested(log, Structure)
    ensures Requested(s.requests, ElectricCharge) == Requested(log, ElectricCharge)
    ensures haveRes == usedRes && haveEc == usedEc ==> s.requests == log && s.pool == pool
    ensures s.stopped <==> s.work == 0.0
    ensures s.work == work && s.shortage == shortage
    ensures s.haveRes == haveRes && s.haveEc == haveEc && s.usedRes == usedRes && s.usedEc == usedEc
    ensures s.fraction == fraction
  {
    var r1 := RefundUnused(pool, log, Structure, haveRes, usedRes);
    var r2 := RefundUnused(r1.0, r1.1, ElectricCharge, haveEc, usedEc);
    Serving(work, r2.0, r2.1, haveRes, haveEc, usedRes, usedEc, fraction, shortage, work == 0.0)
  }

  /** One draw of serve_requirements: the pool afterwards, the amount
      granted and the request log so far. */
  datatype Draw = Draw(pool: Pool, have: real, log: seq<Request>)

  /** `if(amount > 0) have = part.RequestResource(c, amount)`. */
  function DrawIfNeeded(pool: Pool, log: seq<Request>, c: Channel, amount: real): (d: Draw)
    requires pool.Valid() && amount >= 0.0
    ensures d.pool.Valid()
    ensures d.have == (if amount > 0.0 then MinReal(amount, pool.Amount(c)) else 0.0)
    ensures 0.0 <= d.have <= amount && d.have <= pool.Amount(c)
    ensures d.pool.Amount(c) == pool.Amount(c) - d.have
    ensures forall e :: e != c ==> d.pool.Amount(e) == pool.Amount(e)
    ensures Requested(d.log, c) == Requested(log, c) + amount
    ensures forall e :: e != c ==> Requested(d.log, e) == Requested(log, e)
    ensures forall e :: Refunded(d.log, e) == Refunded(log, e)
    ensures amount > 0.0 ==> d.log == log + [Request(c, amount)]
    ensures amount == 0.0 ==> d.log == log && d.pool == pool
  {
    if amount > 0.0 then
      var log' := log + [Request(c, amount)];
      assert log'[..|log'| - 1] == log;
      var r := RequestResource(pool, c, amount);
      Draw(r.0, r.1, log')
    else Draw(pool, 0.0, log)
  }

  /** The common scaling factor: the smallest granted/requested ratio over
      the channels that have a demand, or 1 when neither has. */
  function LimitingFraction(req: Requirements, haveRes: real, haveEc: real): real {
    var f := if req.resourceAmount > 0.0 then Ratio(haveRes, req.resourceAmount) else 1.0;
    if req.energy > 0.0 then MinReal(f, Ratio(haveEc, req.energy)) else f
  }

  /** serve_requirements(work), for the requirements `req` the current task
      declares for that work, the workshop part's pool and the global
      WorkshopShutdownThreshold. */
  function ServeRequirements(req: Requirements, pool: Pool, threshold: real): (s: Serving)
    requires req.WellFormed() && pool.Valid()
    // every RequestResource call that draws asks for exactly the declared demand
    ensures Requested(s.requests, Structure) == req.resourceAmount
    ensures Requested(s.requests, ElectricCharge) == (if s.shortage == ResourceShortage then 0.0 else req.energy)
    // per channel: used <= granted <= available, and the refund is the unused part
    ensures 0.0 <= s.usedRes <= s.haveRes <= pool.structure && s.haveRes <= req.resourceAmount
    ensures 0.0 <= s.usedEc <= s.haveEc <= pool.charge && s.haveEc <= req.energy
    ensures Refunded(s.requests, Structure) == s.haveRes - s.usedRes
    ensures Refunded(s.requests, ElectricCharge) == s.haveEc - s.usedEc
    // conservation: the pool loses exactly what was used
    ensures s.pool.Valid()
    ensures s.pool.structure == pool.structure - s.usedRes
    ensures s.pool.charge == pool.charge - s.usedEc
    // no structure resource for a demand: nothing else is asked, nothing is refunded
    ensures s.shortage == ResourceShortage <==> req.resourceAmount > 0.0 && pool.structure == 0.0
    ensures s.shortage == ResourceShortage ==>
      s.work == 0.0 && s.requests == [Request(Structure, req.resourceAmount)] && s.pool == pool
    // otherwise resource, charge and work are scaled by one common fraction
    ensures s.shortage == NoShortage ==> Scaled(req, s)
    // stop() is called exactly when no work is done
    ensures s.stopped <==> s.work == 0.0
  {
    var d1 := DrawIfNeeded(pool, [], Structure, req.resourceAmount);
    if req.resourceAmount > 0.0 && d1.have == 0.0 then
      Settle(d1.pool, d1.log, 0.0, 0.0, 0.0, 0.0, 0.0, 0.0, ResourceShortage)
    else
      ServeCharge(req, d1, threshold)
  }

  /** serve_requirements once the structure resource was granted (or was
      not needed): ask for the charge and abort below the shutdown threshold. */
  function ServeCharge(req: Requirements, d1: Draw, threshold: real): (s: Serving)
    requires req.WellFormed() && d1.pool.Valid()
    requires 0.0 <= d1.have <= req.resourceAmount
    requires req.resourceAmount == 0.0 ==> d1.have == 0.0
    ensures Requested(s.requests, Structure) == Requested(d1.log, Structure)
    ensures Requested(s.requests, ElectricCharge) == Requested(d1.log, ElectricCharge) + req.energy
    ensures s.haveRes == d1.have && s.shortage != ResourceShortage
    ensures 0.0 <= s.usedRes <= s.haveRes
    ensures 0.0 <= s.usedEc <= s.haveEc <= d1.pool.charge && s.haveEc <= req.energy
    ensures Refunded(s.requests, Structure) == Refunded(d1.log, Structure) + (s.haveRes - s.usedRes)
    ensures Refunded(s.requests, ElectricCharge) == Refunded(d1.log, ElectricCharge) + (s.haveEc - s.usedEc)
    ensures s.pool.Valid()
    ensures s.pool.structure == d1.pool.structure + d1.have - s.usedRes
    ensures s.pool.charge == d1.pool.charge - s.usedEc
    ensures s.shortage == EnergyShortage <==>
      req.energy > 0.0 && Ratio(MinReal(req.energy, d1.pool.charge), req.energy) < threshold
    ensures s.shortage == EnergyShortage ==> s.work == 0.0 && s.usedRes == 0.0 && s.usedEc == 0.0
    ensures s.shortage == NoShortage ==> Scaled(req, s)
    ensures s.stopped <==> s.work == 0.0
  {
    var d2 := DrawIfNeeded(d1.pool, d1.log, ElectricCharge, req.energy);
    if req.energy > 0.0 && Ratio(d2.have, req.energy) < threshold then
      Settle(d2.pool, d2.log, d1.have, d2.have, 0.0, 0.0, 0.0, 0.0, EnergyShortage)
    else
      ServeScaled(req, d1.have, d2)
  }

  /** The used amounts and the work are the declared ones scaled by one
      common fraction, the limiting fraction of the grants. */
  predicate Scaled(req: Requirements, s: Serving) {
    && s.fraction == LimitingFraction(req, s.haveRes, s.haveEc)
    && s.usedRes == Scale(req.resourceAmount, s.fraction)
    && s.usedEc == Scale(req.energy, s.fraction)
    && s.work == Scale(req.work, s.fraction)
  }

  /** The last stage of serve_requirements: scale the declared requirements
      by the limiting fraction and settle. */
  function ServeScaled(req: Requirements, haveRes: real, d2: Draw): (s: Serving)
    requires req.WellFormed() && d2.pool.Valid()
    requires 0.0 <= haveRes <= req.resourceAmount && (req.resourceAmount == 0.0 ==> haveRes == 0.0)
    requires 0.0 <= d2.have <= req.energy && (req.energy == 0.0 ==> d2.have == 0.0)
    ensures s.haveRes == haveRes && s.haveEc == d2.have && s.shortage == NoShortage
    ensures Scaled(req, s)
    ensures 0.0 <= s.usedRes <= s.haveRes && 0.0 <= s.usedEc <= s.haveEc
    ensures Refunded(s.requests, Structure) == Refunded(d2.log, Structure) + (s.haveRes - s.usedRes)
    ensures Refunded(s.requests, ElectricCharge) == Refunded(d2.log, ElectricCharge) + (s.haveEc - s.usedEc)
    ensures Requested(s.requests, Structure) == Requested(d2.log, Structure)
    ensures Requested(s.requests, ElectricCharge) == Requested(d2.log, ElectricCharge)
    ensures s.pool.Valid()
    ensures s.pool.structure == d2.pool.structure + haveRes - s.usedRes
    ensures s.pool.charge == d2.pool.charge + d2.have - s.usedEc
    ensures s.stopped <==> s.work == 0.0
  {
    var frac := LimitingFraction(req, haveRes, d2.have);
    FractionBounds(req, haveRes, d2.have);
    Settle(d2.pool, d2.log, haveRes, d2.have, Scale(req.resourceAmount, frac), Scale(req.energy, frac), frac, Scale(req.work, frac), NoShortage)
  }

  /** Too little charge (the grant ratio below the shutdown threshold):
      no work, nothing used, everything granted goes back and the pool ends
      where it started. */
  lemma ServeEnergyShortage(req: Requirements, pool: Pool, threshold: real)
    requires req.WellFormed() && pool.Valid()
    ensures var s := ServeRequirements(req, pool, threshold);
      && (s.shortage == EnergyShortage <==>
           !(req.resourceAmount > 0.0 && pool.structure == 0.0)
           && req.energy > 0.0 && Ratio(MinReal(req.energy, pool.charge), req.energy) < threshold)
      && (s.shortage == EnergyShortage ==>
           s.work == 0.0 && s.usedRes == 0.0 && s.usedEc == 0.0 && s.pool == pool)
  {
    var d1 := DrawIfNeeded(pool, [], Structure, req.resourceAmount);
    var s := ServeRequirements(req, pool, threshold);
    if req.resourceAmount > 0.0 && d1.have == 0.0 {
      assert s.shortage == ResourceShortage;
    } else {
      assert s == ServeCharge(req, d1, threshold);
      assert d1.pool.charge == pool.charge;
    }
  }

  /** The limiting fraction lies in [0, 1] and scales each demanded channel
      to at most what was granted, with equality on the limiting channel. */
  lemma FractionBounds(req: Requirements, haveRes: real, haveEc: real)
    requires req.WellFormed()
    requires 0.0 <= haveRes <= req.resourceAmount && (req.resourceAmount == 0.0 ==> haveRes == 0.0)
    requires 0.0 <= haveEc <= req.energy && (req.energy == 0.0 ==> haveEc == 0.0)
    ensures 0.0 <= LimitingFraction(req, haveRes, haveEc) <= 1.0
    ensures 0.0 <= Scale(req.resourceAmount, LimitingFraction(req, haveRes, haveEc)) <= haveRes
    ensures 0.0 <= Scale(req.energy, LimitingFraction(req, haveRes, haveEc)) <= haveEc
    ensures 0.0 <= Scale(req.work, LimitingFraction(req, haveRes, haveEc)) <= req.work
    ensures (req.resourceAmount > 0.0 && Scale(req.resourceAmount, LimitingFraction(req, haveRes, haveEc)) == haveRes)
         || (req.energy > 0.0 && Scale(req.energy, LimitingFraction(req, haveRes, haveEc)) == haveEc)
         || (req.resourceAmount == 0.0 && req.energy == 0.0 && LimitingFraction(req, haveRes, haveEc) == 1.0)
  {
    var f := LimitingFraction(req, haveRes, haveEc);
    if req.resourceAmount > 0.0 {
      RatioBounds(haveRes, req.resourceAmount);
    }
    if req.energy > 0.0 {
      RatioBounds(haveEc, req.energy);
    }
    assert 0.0 <= f <= 1.0;
    ScaleWithin(req.work, f);
    ChannelBound(req.resourceAmount, haveRes, f);
    ChannelBound(req.energy, haveEc, f);
  }

  /** Scaling a demand by a fraction no larger than its grant ratio stays
      within the grant, and reaches it when the fraction is that ratio. */
  lemma ChannelBound(amount: real, have: real, f: real)
    requires 0.0 <= have <= amount && (amount == 0.0 ==> have == 0.0) && 0.0 <= f
    requires amount > 0.0 ==> f <= Ratio(have, amount)
    ensures 0.0 <= Scale(amount, f) <= have
    ensures amount > 0.0 && f == Ratio(have, amount) ==> Scale(amount, f) == have
  {
    if amount > 0.0 {
      RatioBounds(have, amount);
      ScaleMonotonic(amount, 0.0, f);
      ScaleMonotonic(amount, f, Ratio(have, amount));
    }
  }

  /** Two amounts scaled by the same fraction keep their ratio. */
  lemma ScaleCrossMultiply(a: real, b: real, f: real)
    ensures Scale(a, f) * b == Scale(b, f) * a
  {
  }

  /** Proportional scaling: when work is done, the used amounts of both
      channels and the work are the same fraction of what was declared,
      that fraction is at most 1, and it is the largest one the grants
      allow (some demanded channel is used up to its grant). */
  lemma ServeProportional(req: Requirements, pool: Pool, threshold: real)
    requires req.WellFormed() && pool.Valid()
    requires ServeRequirements(req, pool, threshold).shortage == NoShortage
    ensures Proportional(req, ServeRequirements(req, pool, threshold))
    ensures MaximalWork(req, ServeRequirements(req, pool, threshold))
  {
    var s := ServeRequirements(req, pool, threshold);
    ScaledProportional(req, s);
  }

  /** Used resource, used charge and work stand in the declared ratios
      (cross-multiplied, so that a zero demand needs no special case), and
      the work is at most the declared work. */
  predicate Proportional(req: Requirements, s: Serving) {
    && s.usedRes * req.energy == s.usedEc * req.resourceAmount
    && s.usedRes * req.work == s.work * req.resourceAmount
    && s.usedEc * req.work == s.work * req.energy
    && 0.0 <= s.work <= req.work
  }

  /** No larger fraction is affordable: some demanded channel is used up to
      its grant, or nothing is demanded and all the work is done. */
  predicate MaximalWork(req: Requirements, s: Serving) {
    || (req.resourceAmount > 0.0 && s.usedRes == s.haveRes)
    || (req.energy > 0.0 && s.usedEc == s.haveEc)
    || (req.resourceAmount == 0.0 && req.energy == 0.0 && s.work == req.work)
  }

  /** The arithmetic behind ServeProportional, for any scaled outcome. */
  lemma ScaledProportional(req: Requirements, s: Serving)
    requires req.WellFormed() && Scaled(req, s)
    requires 0.0 <= s.haveRes <= req.resourceAmount && (req.resourceAmount == 0.0 ==> s.haveRes == 0.0)
    requires 0.0 <= s.haveEc <= req.energy && (req.energy == 0.0 ==> s.haveEc == 0.0)
    ensures Proportional(req, s)
    ensures MaximalWork(req, s)
  {
    var f := s.fraction;
    FractionBounds(req, s.haveRes, s.haveEc);
    ScaleCrossMultiply(req.resourceAmount, req.energy, f);
    ScaleCrossMultiply(req.resourceAmount, req.work, f);
    ScaleCrossMultiply(req.energy, req.work, f);
    if req.resourceAmount == 0.0 && req.energy == 0.0 {
      assert Scale(req.work, 1.0) == req.work;
    }
  }

  /** A negotiation for nothing changes nothing: with no declared demand and
      no work, the pool is untouched, no request is made and the workshop stops. */
  lemma ServeNothingIsIdle(pool: Pool, threshold: real)
    requires pool.Valid()
    ensures var s := ServeRequirements(Requirements(0.0, 0.0, 0.0), pool, threshold);
      s.pool == pool && s.requests == [] && s.work == 0.0 && s.stopped
  {
  }

  /** A partial structure grant is not an abort: asking 10 units of
      resource and 2 of charge for 50 units of work from a pool holding 4 and
      2 gives 40% of the work, uses all 4 units of resource and refunds 1.2
      units of charge. */
  lemma PartialGrantScalesDown()
    ensures var s := ServeRequirements(Requirements(10.0, 2.0, 50.0), Pool(4.0, 2.0), 0.5);
      && s.shortage == NoShortage
      && s.work == 20.0
      && s.usedRes == 4.0 && s.usedEc == 0.8
      && s.requests == [Request(Structure, 10.0), Request(ElectricCharge, 2.0), Request(ElectricCharge, -1.2)]
      && s.pool == Pool(0.0, 1.2)
  {
    assert LimitingFraction(Requirements(10.0, 2.0, 50.0), 4.0, 2.0) == 0.4;
  }

  /** The events do_some_work causes on the current task, in order. */
  datatype WorkEvent = ApplyWork(amount: real) | TaskComplete | StartNextItem

  /** The outcome of do_some_work: the work budget left, the negotiation
      it ran and the events on the current job. */
  datatype WorkStep = WorkStep(remaining: real, serving: Serving, events: seq<WorkEvent>)

  /** do_some_work(available): negotiate, apply the affordable work, and on
      completion notify the current job and move to the next item.
      `completeAfter(w)` is whether the job reports Complete once `w` units
      of work have been applied to it. */
  function DoSomeWork(req: Requirements, pool: Pool, threshold: real, available: real,
                      completeAfter: real -> bool): (w: WorkStep)
    requires req.WellFormed() && pool.Valid()
    ensures w.serving == ServeRequirements(req, pool, threshold)
    ensures w.remaining == available - w.serving.work
    ensures w.serving.work > 0.0 ==> |w.events| > 0 && w.events[0] == ApplyWork(w.serving.work)
    ensures w.serving.work <= 0.0 ==> w.events == []
    ensures TaskComplete in w.events <==> w.serving.work > 0.0 && completeAfter(w.serving.work)
    ensures StartNextItem in w.events <==> TaskComplete in w.events
    ensures TaskComplete in w.events ==> w.events == [ApplyWork(w.serving.work), TaskComplete, StartNextItem]
    ensures TaskComplete !in w.events ==> |w.events| <= 1
    ensures req.work <= available ==> 0.0 <= w.remaining <= available
  {
    var s := ServeRequirements(req, pool, threshold);
    assert 0.0 <= s.work <= req.work by {
      if s.shortage == NoShortage {
        ServeProportional(req, pool, threshold);
      }
    }
    var events :=
      if s.work > 0.0 then
        [ApplyWork(s.work)] + (if completeAfter(s.work) then [TaskComplete, StartNextItem] else [])
      else [];
    WorkStep(available - s.work, s, events)
  }

  /** A candidate kit as the kit lists see it. `baseCheck` is the verdict of
      the generic WorkshopBase.check_task, which is not part of this model. */
  datatype Container = Container(valid: bool)
  datatype KitTask = KitTask(name: string, complete: bool, baseCheck: bool, container: Option<Container>)

  /** check_host: the kit still has a valid container. */
  predicate CheckHost(t: KitTask) {
    t.container.Some? && t.container.value.valid
  }

  /** check_task: the generic check and the host check both pass. */
  predicate CheckTask(t: KitTask) {
    t.baseCheck && CheckHost(t)
  }

  datatype KitLists = KitLists(unbuilt: seq<KitTask>, built: seq<KitTask>)

  /** sort_task: file a checked kit under unbuilt or built. */
  function SortTask(lists: KitLists, t: KitTask): (r: KitLists)
    ensures lists.unbuilt <= r.unbuilt && lists.built <= r.built
    ensures (|r.unbuilt| - |lists.unbuilt|) + (|r.built| - |lists.built|) == (if CheckTask(t) then 1 else 0)
    ensures |r.unbuilt| > |lists.unbuilt| ==> r.unbuilt[|r.unbuilt| - 1] == t && !t.complete
    ensures |r.built| > |lists.built| ==> r.built[|r.built| - 1] == t && t.complete
  {
    if CheckTask(t) then
      if !t.complete then KitLists(lists.unbuilt + [t], lists.built)
      else KitLists(lists.unbuilt, lists.built + [t])
    else lists
  }

  /** update_kits followed by sort_task on every candidate, in order. */
  function SortTasks(tasks: seq<KitTask>): KitLists {
    if |tasks| == 0 then KitLists([], [])
    else SortTask(SortTasks(tasks[..|tasks| - 1]), tasks[|tasks| - 1])
  }

  /** Reference definition: the checked candidates with the given
      completion status, in candidate order. */
  function Checked(tasks: seq<KitTask>, complete: bool): seq<KitTask> {
    if |tasks| == 0 then []
    else
      var t := tasks[|tasks| - 1];
      Checked(tasks[..|tasks| - 1], complete) + (if CheckTask(t) && t.complete == complete then [t] else [])
  }

  function CountChecked(tasks: seq<KitTask>): nat {
    if |tasks| == 0 then 0
    else CountChecked(tasks[..|tasks| - 1]) + (if CheckTask(tasks[|tasks| - 1]) then 1 else 0)
  }

  /** Sorting partitions the checked candidates: the unbuilt list holds the
      incomplete ones and the built list the complete ones, each in
      candidate order, every checked candidate lands in exactly one list and
      no unchecked one lands anywhere. */
  lemma {:induction false} SortTasksPartition(tasks: seq<KitTask>)
    ensures SortTasks(tasks).unbuilt == Checked(tasks, false)
    ensures SortTasks(tasks).built == Checked(tasks, true)
    ensures |SortTasks(tasks).unbuilt| + |SortTasks(tasks).built| == CountChecked(tasks)
    decreases |tasks|
  {
    if |tasks| > 0 {
      SortTasksPartition(tasks[..|tasks| - 1]);
    }
  }

  /** What update_ETA reads and writes on the workshop. */
  datatype EtaState = EtaState(endUT: real, lastUpdateTime: real, display: EtaDisplay)

  /** The outcome of update_ETA: the new state, whether the worker was
      checked in with the kit, and whether checkin() re-registered the
      workshop. */
  datatype EtaUpdate = EtaUpdate(state: EtaState, workerCheckedIn: bool, checkin: bool)

  /** update_ETA, given the effective workforce after update_workforce, the
      kit's CurrentTaskETA after the worker checked in, and the current
      universal time. */
  function UpdateEta(s: EtaState, workforce: real, taskEta: real, now: real): (u: EtaUpdate)
    ensures workforce <= 0.0 ==> u.state.endUT == -1.0 && u.state.display == Stalled && !u.workerCheckedIn
    ensures workforce <= 0.0 ==> u.state.lastUpdateTime == s.lastUpdateTime
    ensures workforce > 0.0 ==> u.workerCheckedIn
    ensures workforce > 0.0 && s.lastUpdateTime < 0.0 ==> u.state.lastUpdateTime == now
    ensures workforce > 0.0 && s.lastUpdateTime >= 0.0 ==> u.state.lastUpdateTime == s.lastUpdateTime
    ensures workforce > 0.0 && taskEta > 0.0 ==>
      u.state.endUT == now + taskEta && (u.state.endUT < 0.0 || u.state.display == TimeLeft(taskEta))
    ensures workforce > 0.0 && taskEta <= 0.0 ==> u.state.endUT == s.endUT
    ensures u.state.endUT < 0.0 ==> u.state.display == Stalled
    ensures u.state.endUT >= 0.0 && u.state.display != s.display ==> u.state.display == TimeLeft(taskEta)
    ensures u.checkin <==> AbsReal(u.state.endUT - s.endUT) > 1.0
  {
    var lastEndUT := s.endUT;
    var lastUpdate := if workforce > 0.0 && s.lastUpdateTime < 0.0 then now else s.lastUpdateTime;
    var endUT :=
      if workforce > 0.0 then (if taskEta > 0.0 then now + taskEta else s.endUT)
      else -1.0;
    var display0 := if workforce > 0.0 && taskEta > 0.0 then TimeLeft(taskEta) else s.display;
    var display := if endUT < 0.0 then Stalled else display0;
    EtaUpdate(EtaState(endUT, lastUpdate, display), workforce > 0.0, AbsReal(endUT - lastEndUT) > 1.0)
  }

  /** The hysteresis settles: repeating update_ETA with unchanged inputs
      leaves the state as it is and does not check in again. */
  lemma UpdateEtaSettles(s: EtaState, workforce: real, taskEta: real, now: real)
    ensures var u := UpdateEta(s, workforce, taskEta, now);
      var v := UpdateEta(u.state, workforce, taskEta, now);
      v.state == u.state && !v.checkin
  {
  }

  /** Work progressing on schedule does not check in: when the new ETA ends
      at the same moment as the recorded end time, within one second,
      no checkin() happens. */
  lemma OnScheduleNoCheckin(s: EtaState, workforce: real, taskEta: real, now: real)
    requires workforce > 0.0 && taskEta > 0.0
    requires AbsReal(now + taskEta - s.endUT) <= 1.0
    ensures !UpdateEta(s, workforce, taskEta, now).checkin
  {
  }
}
