# Ground construction workshops, modelled in Dafny

GroundConstruction is a Kerbal Space Program mod in which engineers in a
workshop part assemble vessels out of construction kits. This project
models its core in Dafny and proves properties of that model. The core has
four parts:

- **The legacy ground workshop** (`GroundWorkshop`). It owns a queue of
  kits and a kit under construction, and computes its workforce from the
  crew's traits. It computes a distance efficiency, an ETA, and the time
  credited on each physics tick. Each tick it turns elapsed time into
  work, draws the structure resource and electric charge for that work,
  and hands the work to the kit. When a kit is done or out of range it
  calls `start_next_kit`, which as written moves on only from a kit whose
  module is gone (see Findings). It refuses to work when it is not
  landed, has no engineers, or is moving or rotating.
- **The kit workshop of the newer workshop model** (`VesselKitWorkshop`).
  Each step it negotiates both resources for a slice of work, scales
  resource, charge and work by one common fraction, and refunds what it
  did not use. It then applies the work, keeps the ETA with a one-second
  check-in hysteresis, and sorts candidate kits into unbuilt and built
  lists.
- **The game-wide workshop registry** (`GroundConstructionScenario`). It
  holds one entry per workshop part in ascending id order. A slow poll
  flags overdue constructions once and flips them to idle. The registry
  is saved as a list sorted by id and rebuilt from such a list on load.
- **The parts registry of the recycler window** (`PartsRegistry`). It is
  an insertion-ordered dictionary of recyclable parts, and its `Sync`
  reconciles it with the current set of parts.

Modules follow that structure:

- `Common` holds option/result types, real-arithmetic wrappers and
  sequence filters.
- `Resources` is the part's resource pool: a draw is granted up to what is
  available, and a negative request puts the amount back.
- `Efficiency` is the distance modifier, which both workshop generations
  share.
- `Workforce` is `update_workers`.
- `VesselKitWorkshop`, `GroundConstructionScenario`, `GroundWorkshop` and
  `PartsRegistry` model the four parts above.

Kit internals the workshops only call are parameters of the model. These
are the kit's required mass and charge for some work, the kit's own
`DoSomeWork`, its completeness, and the ETA of the job under way. So are the game's
vessels, clock, crew and motion.

## Model

| member | source | states |
|---|---|---|
| Efficiency.DistanceMod | GroundWorkshop.cs:207-214 | zero beyond the maximal workshop distance, one within the minimal distance, and between the far-range efficiency and one in between |
| Efficiency.Falloff | GroundWorkshop.cs:212 | the interpolation parameter (distance − min) / max is never negative |
| Efficiency.LerpBetween | GroundWorkshop.cs:211-212 | the clamped interpolation from 1 towards an efficiency e ≤ 1 stays within [e, 1] |
| Efficiency.DistanceModMonotonic | WorkshopModel/VesselKitWorkshop.cs:109-117 | the efficiency never increases as the kit gets further away |
| Efficiency.DistanceModZeroIff | GroundWorkshop.cs:210-212 | with a positive far-range efficiency, the factor is zero exactly when the kit is out of range |
| Workforce.UpdateWorkers | GroundWorkshop.cs:159-177 | the nested loops, with the early break on the first engineering effect, compute the reference workforce: the sum of the experience levels of the crew whose trait has a drill, converter or repair skill |
| Workforce.WorkforceAppend | GroundWorkshop.cs:162-175 | every crew member counts independently: the workforce of two crews together is the sum of their workforces |
| Workforce.WorkforceZeroIff | GroundWorkshop.cs:159-177 | the workforce is zero exactly when no crew member contributes |
| Workforce.WorkforceBounded | GroundWorkshop.cs:173-174 | the workforce is at most the crew's total experience, and equal to it when everyone is an engineer |
| VesselKitWorkshop.DrawIfNeeded | WorkshopModel/VesselKitWorkshop.cs:26-28 | a channel is asked only for a positive demand, and the grant is at most the demand and at most what the pool holds |
| VesselKitWorkshop.RefundUnused | WorkshopModel/VesselKitWorkshop.cs:61-64 | what was granted but not used goes back to its channel with one negative request, and no request is made when all was used |
| VesselKitWorkshop.Settle | WorkshopModel/VesselKitWorkshop.cs:60-67 | the end block refunds both channels' unused grants and stops the workshop exactly when no work can be done |
| VesselKitWorkshop.ServeRequirements | WorkshopModel/VesselKitWorkshop.cs:20-68 | each draw asks exactly the declared demand; per channel used ≤ granted ≤ available and the refund is the unused part; the pool loses exactly what was used; a resource shortage happens iff there is a demand and the pool is empty, and then nothing else is asked; otherwise everything scales by the limiting fraction; stop iff no work |
| VesselKitWorkshop.ServeCharge | WorkshopModel/VesselKitWorkshop.cs:38-49 | the charge is asked in full; an energy shortage happens iff the grant ratio is below the shutdown threshold, and then nothing is used |
| VesselKitWorkshop.ServeScaled | WorkshopModel/VesselKitWorkshop.cs:50-58 | resource, charge and work are the declared ones scaled by the limiting fraction, each within its grant |
| VesselKitWorkshop.FractionBounds | WorkshopModel/VesselKitWorkshop.cs:51-55 | the limiting fraction lies in [0, 1], scales each channel to at most its grant, and meets the grant on the limiting channel |
| VesselKitWorkshop.ServeEnergyShortage | WorkshopModel/VesselKitWorkshop.cs:39-48 | too little charge (both directions) means no work, nothing used, and a pool back where it started |
| VesselKitWorkshop.ScaledProportional | WorkshopModel/VesselKitWorkshop.cs:51-58 | any scaled outcome is proportional (cross-multiplied ratios of resource, charge and work) and maximal (some demanded channel is used up to its grant) |
| VesselKitWorkshop.ServeProportional | WorkshopModel/VesselKitWorkshop.cs:50-58 | when work is done, resource, charge and work stand in the declared ratios, and the work is the largest the grants allow |
| VesselKitWorkshop.ServeNothingIsIdle | WorkshopModel/VesselKitWorkshop.cs:20-68 | a negotiation for nothing makes no request, leaves the pool alone and stops the workshop |
| VesselKitWorkshop.PartialGrantScalesDown | WorkshopModel/VesselKitWorkshop.cs:26-64 | a partial structure grant is no abort: 4 of 10 units gives 40% of the work and refunds the surplus charge |
| VesselKitWorkshop.DoSomeWork | WorkshopModel/VesselKitWorkshop.cs:72-86 | work is applied only when positive; completion notifies the current job and then starts the next item; the budget shrinks by exactly the work done and stays within [0, available] when the declared work fits the budget |
| VesselKitWorkshop.SortTask | WorkshopModel/VesselKitWorkshop.cs:119-128 | a checked kit is appended to exactly one list, the unbuilt one iff incomplete; an unchecked kit changes nothing |
| VesselKitWorkshop.SortTasksPartition | WorkshopModel/VesselKitWorkshop.cs:96-134 | after clearing and sorting every candidate, the lists are exactly the checked incomplete and the checked complete candidates, in candidate order, and together count every checked one |
| VesselKitWorkshop.UpdateEta | WorkshopModel/VesselKitWorkshop.cs:153-176 | without a workforce the end time is −1 and the display stalled; with one the worker is checked in, the clock is started at the current time, once, and a positive task ETA sets the end time; a re-registration happens iff the end time moved by more than one second |
| VesselKitWorkshop.UpdateEtaSettles | WorkshopModel/VesselKitWorkshop.cs:153-176 | repeating the update with unchanged inputs keeps the state and does not re-register |
| VesselKitWorkshop.OnScheduleNoCheckin | WorkshopModel/VesselKitWorkshop.cs:174-175 | work on schedule, within one second of the recorded end time, never re-registers |
| GroundConstructionScenario.NewInfo | GroundConstructionScenario.cs:38-52 | an entry is active iff the kit is valid, and only then carries the kit name; the end time is now + ETA for a positive ETA, else −1 |
| GroundConstructionScenario.GetStyle | GroundConstructionScenario.cs:71-78 | green iff complete, yellow iff active with an end time, red iff active without one, white iff idle |
| GroundConstructionScenario.Describe | GroundConstructionScenario.cs:80-87 | the listing template follows the state and carries the body, the name, the kit name and the ETA text |
| GroundConstructionScenario.StyleMatchesLine | GroundConstructionScenario.cs:71-87 | the colour and the text always agree on the state |
| GroundConstructionScenario.Register | GroundConstructionScenario.cs:92-98 | inserts or overwrites the entry under the part's flight id and leaves every other entry alone |
| GroundConstructionScenario.Deregister | GroundConstructionScenario.cs:100-101 | removes the entry and reports whether there was one |
| GroundConstructionScenario.RegisterDeregister | GroundConstructionScenario.cs:92-101 | deregistering a part just registered restores the registry |
| GroundConstructionScenario.Sweep | GroundConstructionScenario.cs:111-124 | idle entries are skipped, overdue ones go idle, every other one gets its ETA text refreshed |
| GroundConstructionScenario.PollIds | GroundConstructionScenario.cs:109-125 | sweeping ids in order touches exactly those entries; time warp stops iff one of them fired, iff a notice was raised |
| GroundConstructionScenario.Poll | GroundConstructionScenario.cs:103-129 | one poll sweeps every entry, keeps the key set, and stops time warp exactly when some entry was overdue |
| GroundConstructionScenario.FiresAtMostOnce | GroundConstructionScenario.cs:112-118 | an entry that fired is idle afterwards and never fires again |
| GroundConstructionScenario.PollNeverCompletes | GroundConstructionScenario.cs:109-125 | a poll only ever moves entries to idle and never marks one complete |
| GroundConstructionScenario.PollKeepsKeysMatch | GroundConstructionScenario.cs:109-125 | a poll keeps every entry filed under its own id |
| GroundConstructionScenario.OverdueExample | GroundConstructionScenario.cs:112-118 | an overdue construction goes idle and raises a notice; the next poll is quiet |
| GroundConstructionScenario.SaveSorted | GroundConstructionScenario.cs:140-142 | the saved list is strictly ascending by id |
| GroundConstructionScenario.SaveHoldsEntries | GroundConstructionScenario.cs:140 | the saved list holds exactly the registry's entries |
| GroundConstructionScenario.LoadList | GroundConstructionScenario.cs:152-154 | loading succeeds iff the ids are distinct, and then rebuilds exactly the listed entries under their ids |
| GroundConstructionScenario.Load | GroundConstructionScenario.cs:145-156 | the old registry is discarded, and a missing node loads an empty one |
| GroundConstructionScenario.LoadRebuilds | GroundConstructionScenario.cs:148-154 | a list holding each entry of a registry once loads back into that registry |
| GroundConstructionScenario.LoadSave | GroundConstructionScenario.cs:137-156 | loading what was saved restores the registry without an exception |
| GroundConstructionScenario.SavesAs | GroundConstructionScenario.cs:140-142 | a registry holding exactly the entries of an id-sorted list saves as that list |
| GroundConstructionScenario.SaveLoad | GroundConstructionScenario.cs:137-156 | saving what was loaded from an id-sorted list gives the list back |
| GroundWorkshop.FindKit | GroundWorkshop.cs:72-77 | the kit's module is looked up again on its vessel, and is none when the vessel is gone |
| GroundWorkshop.Recheck | GroundWorkshop.cs:59-64 | a valid module passes untouched; otherwise the kit is looked up again and passes iff that finds a valid module |
| GroundWorkshop.UpdateQueue | GroundWorkshop.cs:130-134 | the filtered queue is no longer than the queue and holds only kits with valid modules |
| GroundWorkshop.UpdateQueueKeepsPassing | GroundWorkshop.cs:133 | exactly the kits whose recheck passes survive, as the recheck leaves them |
| GroundWorkshop.UpdateQueueAppend | GroundWorkshop.cs:133 | the filter works kit by kit and keeps the queue order |
| GroundWorkshop.UpdateQueueValid | GroundWorkshop.cs:130-134 | a queue of valid kits passes unchanged |
| GroundWorkshop.UpdateQueueIdempotent | GroundWorkshop.cs:130-134 | filtering twice filters no further |
| GroundWorkshop.NewWorkshop | GroundWorkshop.cs:92-100 | a new workshop is idle, with no queue, no kit, ETA −1, a stalled display, no workers and a distance modifier to be recomputed |
| GroundWorkshop.RemainingWork | GroundWorkshop.cs:222-225 | the kit's work left less the part's work done when that is not negative, and 0 otherwise; with no part under construction, the work left itself |
| GroundWorkshop.UpdateEta | GroundWorkshop.cs:216-235 | with workers and a positive efficiency, workers × efficiency × ETA equals the remaining work; otherwise the ETA is −1 and stalled; nothing else changes |
| GroundWorkshop.Start | GroundWorkshop.cs:251-258 | working, clock reset, efficiency and workforce recomputed, and registered as active when the kit is valid |
| GroundWorkshop.Stop | GroundWorkshop.cs:260-266 | not working, efficiency and clock reset, and registered; the kit and the ETA stay |
| GroundWorkshop.Advance | GroundWorkshop.cs:272-276 | dequeues from the front until the kit under construction has a valid module or the queue is empty: what is left is the tail of the queue, a valid kit keeps the whole queue, and nothing dequeued leaves the kit as it was |
| GroundWorkshop.AdvanceSkips | GroundWorkshop.cs:272-276 | the loop ends on the kit found for the last dequeued entry, and every entry dequeued before it was found without a valid module |
| GroundWorkshop.AdvanceFindsAny | GroundWorkshop.cs:272-277 | the loop finds a valid kit iff some queued kit has a valid module |
| GroundWorkshop.StartNextKit | GroundWorkshop.cs:268-286 | succeeds iff it ends on a valid module, and then works; on failure the kit is forgotten, the queue is empty and the workshop stops; an empty queue always fails; the queue left is a tail of the old one |
| GroundWorkshop.StartNextKitSucceeds | GroundWorkshop.cs:270-281 | with a queue, it succeeds iff the current kit or some queued kit has a valid module |
| GroundWorkshop.LegacyServe | GroundWorkshop.cs:298-329 | the resource handling as written: a zero grant stops with nothing drawn; charge below the threshold stops; otherwise work within the demand; the refund is required minus used |
| GroundWorkshop.LegacyServeConservesIff | GroundWorkshop.cs:321-329 | the refund as written conserves the structure resource iff the full requirement was drawn |
| GroundWorkshop.LegacyRefundOverCredits | GroundWorkshop.cs:328-329 | with 4 units in the pool and 10 required, the pool ends at 6 after 4 were used |
| GroundWorkshop.LegacyAbortKeepsDraw | GroundWorkshop.cs:311-318 | a stop for lack of charge keeps the structure resource and the charge already drawn |
| GroundWorkshop.ServeCorrected | GroundWorkshop.cs:301-329 | the same stop decision and work, but on a stop the pool is restored, and after work it loses exactly what was used |
| GroundWorkshop.EffectiveDistanceMod | GroundWorkshop.cs:290 | a reset (negative) modifier is recomputed from the kit's distance, a set one kept; either way it is not negative |
| GroundWorkshop.Demand | GroundWorkshop.cs:298-301 | the kit is offered the available work times the efficiency |
| GroundWorkshop.ValidKitRestarts | GroundWorkshop.cs:270-280 | as written, moving on from a kit whose module is still valid, with kits queued, starts that same kit again and leaves the queue untouched |
| GroundWorkshop.LeaveKit | GroundWorkshop.cs:291-296 | moving on as intended: the current kit is left, so the workshop stops or a kit is taken off the queue, and a kit is started iff some queued kit has a valid module |
| GroundWorkshop.AfterWork | GroundWorkshop.cs:324-331 | the work goes to the kit; an incomplete kit stays current with nothing else changed; a complete one is followed by start_next_kit (as written) or by leaving the kit (corrected); the work is charged to the budget at the efficiency the workshop has afterwards |
| GroundWorkshop.CompletedKitRestarts | GroundWorkshop.cs:325-326 | as written, a kit the work completed that is still valid, with kits queued, stays under construction and the queue does not move |
| GroundWorkshop.CompletedKitLeft | GroundWorkshop.cs:325-326 | corrected, a completed kit is left: the workshop stops or the queue shrinks |
| GroundWorkshop.DoSomeWork | GroundWorkshop.cs:288-332 | too far iff the efficiency is zero, and then the budget is returned whole; no resource iff the demand or the pool is empty; a stop for lack of resource or charge ends the budget and the work; the work is at most the budget times the efficiency; a too-far step calls start_next_kit as written and leaves the kit when corrected, and the corrected step stops or shortens the queue; a corrected stop restores the pool, while as written a stop for lack of charge keeps what was drawn |
| GroundWorkshop.DoSomeWorkSpends | GroundWorkshop.cs:330-331 | without a kit switch, what remains of the budget lies between zero and what was available |
| GroundWorkshop.RunLoop | GroundWorkshop.cs:343-344 | the loop ends with the workshop stopped or the budget spent, and keeps the pool valid and a kit under a working workshop |
| GroundWorkshop.TooFarRestarts | GroundWorkshop.cs:291-296 | as written, one iteration from a workshop whose valid kit is out of range, with a queue, returns the whole budget and leaves the workshop in the same condition |
| GroundWorkshop.TooFarIterates | GroundWorkshop.cs:343-344 | from such a workshop, the loop with one more unit of fuel runs out iff the loop from the state after that iteration does |
| GroundWorkshop.TooFarNeverEnds | GroundWorkshop.cs:291-296 | as written, a working workshop with a valid out-of-range kit and a queue never leaves the loop |
| GroundWorkshop.TooFarCorrectedProgresses | GroundWorkshop.cs:291-296 | corrected, each too-far step stops the workshop or shortens the queue |
| GroundWorkshop.GetDeltaTime | GroundWorkshop.cs:347-359 | nothing until the game is ready; after a reset one fixed step; otherwise the time since the last tick, which becomes the new last tick |
| GroundWorkshop.CreditedTelescopes | GroundWorkshop.cs:350-358 | the deltas of successive ticks add up to the time between the first and the last tick, plus one fixed step after a reset |
| GroundWorkshop.TickStart | GroundWorkshop.cs:336-342 | nothing outside flight, when idle or without workers, or until ready; otherwise the loop is entered only with a valid kit and a budget of workers × elapsed time, counting the workers as they stand after the recheck: unchanged when the kit is still there, recounted from the crew when a kit switch restarted the workshop |
| GroundWorkshop.FixedUpdate | GroundWorkshop.cs:334-345 | nothing outside flight, when idle or without workers; only the clock until ready; otherwise the loop runs from the tick's start with its budget, to a stop or to an empty budget |
| GroundWorkshop.SwitchedTickUsesCrew | GroundWorkshop.cs:339-342 | after a kit switch with no engineer left in the crew the budget is zero, so the loop does no work, whatever the workers count was before |
| GroundWorkshop.CanConstruct | GroundWorkshop.cs:179-202 | allowed iff landed, with engineers, not too fast and not rotating; the first failed check is the one reported |
| GroundWorkshop.FrameUpdate | GroundWorkshop.cs:237-249 | a working workshop with a valid kit stops when it cannot construct, and otherwise keeps working with its workers and ETA recomputed and without re-registering; the queue is filtered only while the window is shown |
| PartsRegistry.Empty | UI/RecyclerWindow.cs:220-223 | a new registry is consistent and empty |
| PartsRegistry.CountIsOrderLength | UI/RecyclerWindow.cs:225 | the dictionary count equals the length of the order list |
| PartsRegistry.Add | UI/RecyclerWindow.cs:227-237 | a new id gets a wrapper bound to the recycler, appended to the order; a known id changes nothing and yields nothing |
| PartsRegistry.AddKeepsValid | UI/RecyclerWindow.cs:227-237 | adding keeps the list and the dictionary in step |
| PartsRegistry.Remove | UI/RecyclerWindow.cs:239-247 | removes the id from the dictionary and reports iff it was there; otherwise nothing changes |
| PartsRegistry.RemoveKeepsValid | UI/RecyclerWindow.cs:239-247 | removing keeps the two in step, and the other ids keep their relative order |
| PartsRegistry.AddRemove | UI/RecyclerWindow.cs:227-247 | removing a part just added restores the registry |
| PartsRegistry.Clear | UI/RecyclerWindow.cs:249-253 | clearing leaves a consistent, empty registry for the same recycler |
| PartsRegistry.Contains | UI/RecyclerWindow.cs:257 | an id is contained iff it is in the order list |
| PartsRegistry.TryGetValue | UI/RecyclerWindow.cs:259-260 | a value is found iff the id is contained, and it is the wrapper for that id |
| PartsRegistry.Enumerate | UI/RecyclerWindow.cs:296-300 | the enumeration yields the registered wrappers in insertion order |
| PartsRegistry.EnumerateAdd | UI/RecyclerWindow.cs:296-300 | a newly added part is enumerated last |
| PartsRegistry.AddAll | UI/RecyclerWindow.cs:269-279 | adding parts in turn registers exactly the missing ids, appended in part order, and keeps every old entry |
| PartsRegistry.AddAllKeepsValid | UI/RecyclerWindow.cs:269-279 | adding parts keeps the list and the dictionary in step |
| PartsRegistry.AddAllPresent | UI/RecyclerWindow.cs:273 | parts all already registered add nothing |
| PartsRegistry.AddAllFirstOccurrences | UI/RecyclerWindow.cs:58-62 | filling an empty registry registers the ids in order of first occurrence |
| PartsRegistry.RemoveAbsent | UI/RecyclerWindow.cs:280-287 | removes, in snapshot order, exactly the snapshot ids that are not kept, and leaves the survivors' entries and order alone |
| PartsRegistry.RemoveAbsentKeepsValid | UI/RecyclerWindow.cs:280-287 | removing absent ids keeps the list and the dictionary in step |
| PartsRegistry.RemoveAbsentKeepsAll | UI/RecyclerWindow.cs:280-287 | a snapshot whose ids are all kept removes nothing |
| PartsRegistry.Sync | UI/RecyclerWindow.cs:262-288 | afterwards the keys are exactly the parts' ids; survivors keep their wrappers and relative order with the new ones after them; the add callback reports exactly the new ids and the remove callback exactly the vanished ones, each once |
| PartsRegistry.SyncIdempotent | UI/RecyclerWindow.cs:262-288 | syncing again with the same parts changes nothing and reports nothing |
| PartsRegistry.SetVessels | UI/RecyclerWindow.cs:50-64 | without a recycler nothing happens; with one the registry holds exactly the root parts' ids, in order of first occurrence, and reports each wrapper added |
| PartsRegistry.SyncVessels | UI/RecyclerWindow.cs:105-106 | afterwards the registry holds exactly the ids of the vessels' root parts |
| PartsRegistry.SyncClearedIsSetVessels | UI/RecyclerWindow.cs:105-106 | syncing a cleared registry builds what SetVessels builds and removes nothing |

## Left out

- Messages, logging, the GUI windows and panes, and the `Controller` calls of the recycler window are left out. So are the refresh of child nodes in `ChildPartsRegistry` and `RecyclablePart`'s own recycling logic. They are presentation only.
- `update_nearby_kits` and the resource-transfer region of the legacy workshop are left out, because they scan the game's loaded vessels and move resources between vessels outside this core.
- `SwitchTo` of a registry entry is left out, because it only switches the game's active vessel.
- Kit internals are parameters: `RequiredMass`, the kit's `DoSomeWork`, completeness, `RequirementsForWork`, `CheckinWorker` and `CurrentTaskETA`. Their code is not part of this model. `GroundWorkshop.KitBehaviour.Sane` assumes the kit accepts at most the work offered and asks for a positive amount of charge, because the source divides by that charge.
- `WorkshopBase.check_task`, `update_workforce` and `start_next_item` of the newer workshop are not part of this model. The generic check is a field of each candidate kit, and the effective workforce is an input.
- `PartsRegistry.ForEach` enumerates the dictionary's values, whose order .NET does not specify. Only the ordered enumerator is modelled (`PartsRegistry.Enumerate`).
- PartsRegistry.RemoveAbsent: the second loop of `Sync` walks a snapshot of the dictionary's keys. Their order is unspecified, and the model takes it to be insertion order. The set of removed ids does not depend on that order; the order of the remove callbacks does.
- `RecyclablePart.ID` is 0 for a missing part. Parts are never missing in this model.
- Floating point is modelled as exact reals. The `float` fields of the legacy workshop, NaN and infinity, and the rounding of `Mathf.Lerp` are not modelled.
- GroundWorkshop.AfterWork: when the next kit started after completion has a reset or zero efficiency, `available_work - work/distance_mod` divides by −1 or by zero. With −1 the model adds the work back, as the code does. With zero, where the code yields an infinity, the model returns no budget left.
- Efficiency.DistanceMod: the three distance tunables are assumed to satisfy 0 ≤ min < max and 0 ≤ far efficiency ≤ 1, because the formula divides by the maximal distance.
- GroundWorkshop.RunLoop: the `while` loop of `FixedUpdate` is cut after a fuel bound, because the loop as written need not end (see Findings). A run cut short is reported as such rather than modelled further.
- GroundWorkshop.FixedUpdate: the crew is read once per call; crew changes during a tick are not modelled.
- Resources.RequestResource: tank capacity and resource flow rules are not modelled. A refund always fits in the part, and a draw gets all that is held, up to the request.
- The persistence format (`ConfigNode`) is left out. A saved registry is modelled as the list of entries, and a missing node as `None`.
- Time warp is modelled as the poll's `finished` flag, not as a call to `TimeWarp.SetRate`.
- The one-second wait between polls is left out, and the slow-update coroutine is modelled as one poll at a given time.

## Findings

| source | as written | input that shows it | evidently intended | confidence | as-written member | corrected member |
|---|---|---|---|---|---|---|
| GroundWorkshop.cs:328-329 | after `have_res` is scaled down to the amount used, the refund is `have_res - required_res`, i.e. required minus used, and not drawn minus used; a stop for lack of charge (311-318) refunds nothing | 10 units required, 4 in the pool, ample charge: all 4 are used, yet up to 6 are credited back, as far as the part has free capacity; with room for them the pool ends at 6 | refund what was drawn but not used, and give everything back on a stop | medium, not executed | GroundWorkshop.LegacyRefundOverCredits | GroundWorkshop.ServeCorrected |
| GroundWorkshop.cs:291-296 | when the kit under construction is out of range, `start_next_kit` keeps it because its module is still valid, restarts it and returns the whole budget, so `while(Working && available_work > 0)` repeats the same step forever | a working workshop, its kit valid but beyond the maximal distance, with one more kit queued | leave the out-of-range kit and switch to the next kit in line, as the message there announces | medium, not executed | GroundWorkshop.TooFarNeverEnds | GroundWorkshop.LeaveKit |
| GroundWorkshop.cs:325-326 | when the work completes the kit, `start_next_kit` is called to move on, but a completed kit keeps a valid module (complete kits count as valid built kits at 148-154), so its loop at 272 is skipped and the same kit is started again at 277-280; the queue never moves on by itself | a working workshop whose kit is completed by this step, with one more kit queued | leave the completed kit and start the next kit in line | medium, not executed | GroundWorkshop.CompletedKitRestarts | GroundWorkshop.CompletedKitLeft |
