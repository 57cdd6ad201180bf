# SimpleSurvival life support, modelled in Dafny

SimpleSurvival is a Kerbal Space Program mod. It makes every crew member
consume life support. This project models its accounting engine, which lives
in three part modules:

- **Converter** (`Cons2LSModule`). A READY/CONVERTING machine that runs only
  with an Engineer aboard. Each tick it pulls electricity and consumables and
  pushes life support, at fixed per-second rates. When any of the three comes
  up short, every resource is rolled back to the worst-supplied fraction and
  the converter stops. Its "Refill EVA" command tops the crew's personal
  reserves up to their capacity and charges consumables for it.
- **Craft ticker** (`LifeSupportModule`). Every tick it drains the vessel's
  life support for the crew aboard. When that pool is empty, it drains each
  crew member's personal reserve instead. It warns once, clamps a downward
  crossing of the 30-second threshold to exactly 30 seconds, and removes crew
  whose reserve is gone, editing the roster in place. At startup it charges
  the vessel for the time it was unloaded and passes the uncovered seconds on
  to the crew's reserves, which are floored at KILL_BUFFER. A vessel named by
  a rescue contract instead gets half its capacity.
- **EVA sync** (`EVALifeSupportModule`). It gives an EVA kerbal a personal
  pool seeded from the registry, or charges an existing pool for the time
  away. Every tick it mirrors the pool into the registry, drains it, clamps
  at the 30-second threshold, and kills the kerbal when nothing could be
  drained.

Files:

| file | module | contents |
|---|---|---|
| `host.dfy` | `Host` | the mod's constants as a `Config`, crew members, the environment, operator notices, and the roster removal that stands for `Util.KillKerbal` |
| `resources.dfy` | `Resources` | the resource pool class with the host's bounded, signed `RequestResource`, and the `Util.StartupRequest` stand-in |
| `tracking.dfy` | `Tracking` | the per-crew reserve registry (`EVALifeSupportTracker`) as a class over a `map` |
| `converter.dfy` | `Converter` | the converter |
| `life_support.dfy` | `LifeSupport` | the craft ticker and the rescue-contract list |
| `eva.dfy` | `EvaLifeSupport` | the EVA module |

Every loop of the source that the model keeps is a `while` loop in a
method. The exception is the EVA module's search of the part's resources
for its EVA life-support resource, which is not modelled as a loop; see
"## Left out". The two read-only searches, `ProperlyManned` and the rescue-contract search
`ContractChecker.FindRescue`, keep their loop inline. The three loops that
change state are FillEVA's crew loop, OnStart's crew loop and
FixedUpdate's kill loop. Each is a module-level method (`FillCrew`,
`StartupCrew`, `KillLoop`) that the class method calls. Its state is
described by a predicate (`FillState`, `StartState`, `KillState`) over
specification functions of the input:

- `Refilled`/`Withdrawn` for FillEVA;
- `AfterStartup`/`StartupNotices` for OnStart;
- `Survivors`/`Drained`/`CrossingNotices` for the kill loop.

The properties are proved as lemmas about those functions. Each loop pass
is a small method (`FillVisit`, `StartVisit`, `KillVisit`) proved against
one step of its function.

## Model

| member | source | states |
|---|---|---|
| Converter.Toggled | source/SimpleSurvival/Cons2LSModule.cs:35-44 | toggling always changes the status |
| Converter.ToggleTwice | source/SimpleSurvival/Cons2LSModule.cs:32-47 | toggling twice restores the original status |
| Converter.Cons2LSModule.ToggleStatus | source/SimpleSurvival/Cons2LSModule.cs:32-47 | READY becomes CONVERTING and CONVERTING becomes READY; nothing else changes |
| Converter.StatusToString | source/SimpleSurvival/Cons2LSModule.cs:171-182 | the text is "Ready" exactly for READY and "Converting" exactly for CONVERTING |
| Converter.HasEngineer | source/SimpleSurvival/Cons2LSModule.cs:190-195 | some crew member of the part has the trait type name "Engineer" (the specification of ProperlyManned) |
| Converter.ProperlyManned | source/SimpleSurvival/Cons2LSModule.cs:188-199 | true iff some crew member of the part has the trait "Engineer" |
| Converter.MinFrac | source/SimpleSurvival/Cons2LSModule.cs:107 | the minimum is at most each fraction and equal to one of them |
| Converter.CorrectionFactors | source/SimpleSurvival/Cons2LSModule.cs:107-121 | every corrective factor (min_frac - frac) is at most 0, and one of them is exactly 0 |
| Converter.Pull | source/SimpleSurvival/Cons2LSModule.cs:135-145 | the fraction of a (corrected) pull lies in [0, 1] and the pool stays within [0, max] |
| Converter.PullScales | source/SimpleSurvival/Cons2LSModule.cs:137-145 | fraction times request is the amount obtained, and the fraction is 1 iff the request was honoured in full |
| Converter.PullInFull | source/SimpleSurvival/Cons2LSModule.cs:137-145 | a pool that can honour the whole request yields fraction 1 |
| Converter.PullNotices | source/SimpleSurvival/Cons2LSModule.cs:147-157 | at most one message, posted iff the fraction is below ALMOST_ONE: "not enough" when req >= 0, "is full" otherwise |
| Converter.PullResource | source/SimpleSurvival/Cons2LSModule.cs:135-160 | requests rate·dt; returns the fraction of the request obtained, leaves the pool at amount minus what was obtained, and posts the messages of PullNotices |
| Converter.PullAsWritten | source/SimpleSurvival/Cons2LSModule.cs:137-145 | the pull as written (request `amount`, divide by `amount·dt`): the fraction is non-negative and the pool stays in bounds |
| Converter.PullAsWrittenOvershoots | source/SimpleSurvival/Cons2LSModule.cs:137-145 | with a pool that covers the per-second amount and dt < 1, the as-written fraction is 1/dt > 1 and a whole second's worth is taken |
| Converter.PullAsWrittenRollback | source/SimpleSurvival/Cons2LSModule.cs:111-121 | with the as-written fraction, the corrective request (min_frac - frac)·rate·dt is still honoured in full and leaves each pool charged exactly min_frac·rate·dt |
| Converter.PullAsWrittenExample | source/SimpleSurvival/Cons2LSModule.cs:137-145 | pool 10 of 10, rate 1, dt 0.02: as written takes 1 and reports 50; corrected takes 0.02 and reports 1 |
| Converter.CorrectionHonoured | source/SimpleSurvival/Cons2LSModule.cs:102-121 | the corrective request is always honoured in full, and the net change of the pool is then exactly min_frac·rate·dt |
| Converter.CorrectionFits | source/SimpleSurvival/Cons2LSModule.cs:113-121 | a correction m·req - got with 0 <= m <= frac lies between nothing and undoing the pull, so the pool honours it in full |
| Converter.Settle | source/SimpleSurvival/Cons2LSModule.cs:102-124 | a resource's pool after a converting tick stays within [0, max] |
| Converter.SettleCharges | source/SimpleSurvival/Cons2LSModule.cs:102-124 | on a shortfall every pool is charged exactly min_frac·rate·dt; otherwise the pull stands as it was |
| Converter.FullSupplyKeepsConverting | source/SimpleSurvival/Cons2LSModule.cs:102-111 | when each of the three pools can honour its whole request for the tick, the minimum fraction is 1 and no shortfall is seen |
| Converter.PerTick | source/SimpleSurvival/Cons2LSModule.cs:137 | the request of one tick: a per-second rate times fixedDeltaTime (`req` in PullResource) |
| Converter.Correction | source/SimpleSurvival/Cons2LSModule.cs:115-120 | the corrective request (min_frac - frac)·rate·fixedDeltaTime, written over the tick request rate·dt |
| Converter.ReturnExcess | source/SimpleSurvival/Cons2LSModule.cs:115-121 | the corrective request leaves the pool where Settle says |
| Converter.TickNotices | source/SimpleSurvival/Cons2LSModule.cs:102-105 | a converting tick posts at most three messages, those of its three pulls in order |
| Converter.ConvertTick | source/SimpleSurvival/Cons2LSModule.cs:102-124 | each pool ends at Settle of its own pull at the tick's minimum fraction; the shortfall flag is min_frac < DOUBLE_ALMOST_ONE |
| Converter.Cons2LSModule.FixedUpdate | source/SimpleSurvival/Cons2LSModule.cs:90-126 | READY: nothing changes. CONVERTING without an Engineer: READY, one message, no pool touched. CONVERTING with one: pools as in ConvertTick, READY iff short |
| Converter.RefillRequests | source/SimpleSurvival/Cons2LSModule.cs:61-69 | one non-negative request per tracked crew member, untracked ones skipped |
| Converter.Deficit | source/SimpleSurvival/Cons2LSModule.cs:66-69 | the consumables charged for a refill, CONS_TO_EVA·(max - current), are non-negative |
| Converter.Withdrawn | source/SimpleSurvival/Cons2LSModule.cs:61-71 | a pool serving a sequence of requests stays within [0, max] |
| Converter.WithdrawnInFull | source/SimpleSurvival/Cons2LSModule.cs:61-71 | a pool holding at least the total of the refill requests serves them all and ends at amount minus their sum |
| Converter.Refilled | source/SimpleSurvival/Cons2LSModule.cs:61-71 | tracked crew end with current = max; every other entry is unchanged and no name is added |
| Converter.RefillMember | source/SimpleSurvival/Cons2LSModule.cs:63-70 | an untracked member changes nothing; a tracked one has its deficit requested and its reserve set to max |
| Converter.FillVisit | source/SimpleSurvival/Cons2LSModule.cs:61-71 | one pass of the loop takes the state after the first i crew members to the state after i + 1 (FillState) |
| Converter.FillCrew | source/SimpleSurvival/Cons2LSModule.cs:57-71 | after the loop the registry is Refilled over the crew and the consumables are Withdrawn by RefillRequests |
| Converter.DepositFills | source/SimpleSurvival/Cons2LSModule.cs:86 | depositing at least the free space fills the EVA pool |
| Converter.Cons2LSModule.FillEva | source/SimpleSurvival/Cons2LSModule.cs:52-88 | vessel branch: as FillCrew. EVA branch: the kerbal's deficit is charged, the EVA pool receives a deposit of max and ends full (DepositFills), and the registry is untouched |
| LifeSupport.Matches | source/SimpleSurvival/LifeSupportModule.cs:35-36 | a contract guid names this part when the checker's part id for it is the part's flight id |
| LifeSupport.FirstRescue | source/SimpleSurvival/LifeSupportModule.cs:33-48 | the position of the first contract guid naming this part, or -1 when none does |
| LifeSupport.ContractChecker.FindRescue | source/SimpleSurvival/LifeSupportModule.cs:33-37 | the loop finds exactly FirstRescue |
| LifeSupport.RemoveFirst | source/SimpleSurvival/LifeSupportModule.cs:42 | List.Remove: the list is unchanged when x is absent and one shorter when present |
| LifeSupport.RemoveFirstMultiset | source/SimpleSurvival/LifeSupportModule.cs:42 | Remove takes away one copy of x if present and keeps everything else |
| LifeSupport.RemoveFirstAt | source/SimpleSurvival/LifeSupportModule.cs:42 | removing an element whose first occurrence is at i drops exactly position i |
| LifeSupport.RescueRemovesItsGuid | source/SimpleSurvival/LifeSupportModule.cs:35-42 | removing the matched guid drops exactly the matched position |
| LifeSupport.ContractChecker.Remove | source/SimpleSurvival/LifeSupportModule.cs:42 | the guid list becomes RemoveFirst of itself |
| LifeSupport.ChargeVessel | source/SimpleSurvival/LifeSupportModule.cs:29-58 | a matched rescue contract: that guid is dropped, the amount is maxAmount/2 and the EVA deduction is 0; otherwise the list is kept, the amount can only fall and the deduction is >= 0 |
| LifeSupport.Deducted | source/SimpleSurvival/LifeSupportModule.cs:65-67 | the deducted reserve lies in [0, max] and is current - diff (or max - diff for a new name) when that is in range |
| LifeSupport.StartStep | source/SimpleSurvival/LifeSupportModule.cs:65-70 | one pass tracks the name, floors its reserve at KILL_BUFFER, and leaves every other entry alone |
| LifeSupport.AfterStartup | source/SimpleSurvival/LifeSupportModule.cs:63-78 | the registry after the crew loop, one StartStep per crew member in order; it stays a registry of capacity evaMax and loses no name |
| LifeSupport.StartupNotices | source/SimpleSurvival/LifeSupportModule.cs:69-72 | the "seconds to live" messages of the crew loop, at most one per crew member |
| LifeSupport.SomeUnder30 | source/SimpleSurvival/LifeSupportModule.cs:76-77 | the flag's specification: some crew member's deducted reserve is under 30 seconds |
| LifeSupport.StartupMember | source/SimpleSurvival/LifeSupportModule.cs:65-70 | the tracker performs StartStep and the answer is the deducted reserve before the floor |
| LifeSupport.StartupFlag | source/SimpleSurvival/LifeSupportModule.cs:76-77 | a pass raises the flag iff the member's deducted reserve is under 30 seconds |
| LifeSupport.StartupFloors | source/SimpleSurvival/LifeSupportModule.cs:63-78 | after the crew loop every crew member is tracked with current >= KILL_BUFFER |
| LifeSupport.StartupOthers | source/SimpleSurvival/LifeSupportModule.cs:63-78 | the crew loop leaves everyone not aboard as they were and tracks nobody else |
| LifeSupport.DeductedFromStart | source/SimpleSurvival/LifeSupportModule.cs:63-67 | with distinct names each member's deduction sees the registry as it was before the loop |
| LifeSupport.StartVisit | source/SimpleSurvival/LifeSupportModule.cs:63-78 | one pass of the crew loop takes the state after the first i crew members to the state after i + 1 (StartState) |
| LifeSupport.StartupCrew | source/SimpleSurvival/LifeSupportModule.cs:63-78 | the registry ends at AfterStartup, everyone is floored, one "seconds to live" message goes out per reserve in [KILL_BUFFER, 30 s), and the flag is raised iff some deducted reserve is under 30 s |
| LifeSupport.LifeSupportModule.OnStart | source/SimpleSurvival/LifeSupportModule.cs:22-82 | outside flight only the flag resets; in flight ChargeVessel then StartupCrew with its deduction |
| LifeSupport.Crosses | source/SimpleSurvival/LifeSupportModule.cs:150-151 | the corrected downward-crossing test of the 30-second threshold, on the reserve before the deduction, as EVALifeSupportModule.cs:88-89 tests it |
| LifeSupport.Drain | source/SimpleSurvival/LifeSupportModule.cs:146-157 | a reserve drained by the request never rises; on a crossing it is exactly 30 s, otherwise the clamped deduction |
| LifeSupport.CrossesOnce | source/SimpleSurvival/LifeSupportModule.cs:150-157 | a reserve that has just crossed cannot cross again on the next tick |
| LifeSupport.DrainAsWritten | source/SimpleSurvival/LifeSupportModule.cs:148-157 | the drain as written (crossing tested on current + request): the reserve stays within [0, max] |
| LifeSupport.DrainAsWrittenAgrees | source/SimpleSurvival/LifeSupportModule.cs:148-151 | when the request does not empty the reserve the two tests agree |
| LifeSupport.DrainAsWrittenRevives | source/SimpleSurvival/LifeSupportModule.cs:148-151 | reserve 5, threshold 30, request 40: as written it is raised to 30, corrected it ends at 0 |
| LifeSupport.DrainMember | source/SimpleSurvival/LifeSupportModule.cs:144-163 | the member's entry becomes Drain of it; crossed iff Crosses; killed iff the drained reserve is under DOUBLE_MARGIN |
| LifeSupport.Drained | source/SimpleSurvival/LifeSupportModule.cs:141-166 | the drained registry has the same names, drains exactly the given names and keeps the rest |
| LifeSupport.Survivors | source/SimpleSurvival/LifeSupportModule.cs:141-166 | the crew left after the kill loop, in roster order, never more than there were |
| LifeSupport.CrossingNotices | source/SimpleSurvival/LifeSupportModule.cs:150-157 | the "30 seconds to live" messages of the kill loop, at most one per crew member, in roster order |
| LifeSupport.SurvivorsMembers | source/SimpleSurvival/LifeSupportModule.cs:159-163 | a crew member survives iff their drained reserve is at least DOUBLE_MARGIN |
| LifeSupport.SurvivorsAppend | source/SimpleSurvival/LifeSupportModule.cs:141-166 | survivors keep their relative order: the filter distributes over concatenation |
| LifeSupport.SurvivorsAboveMargin | source/SimpleSurvival/LifeSupportModule.cs:141-166 | after the loop every remaining crew member's reserve is at least DOUBLE_MARGIN |
| LifeSupport.TickRoster | source/SimpleSurvival/LifeSupportModule.cs:142-165 | at each pass the index points at the next original member; removing them without advancing, or advancing past them, gives the next state |
| LifeSupport.TickEntries | source/SimpleSurvival/LifeSupportModule.cs:144-157 | each member's entry is still the original one when visited, and draining it gives the registry after one more visit |
| LifeSupport.KillVisit | source/SimpleSurvival/LifeSupportModule.cs:144-165 | one pass of the kill loop takes the state after the first j original members to the state after j + 1 (KillState) |
| LifeSupport.KillLoop | source/SimpleSurvival/LifeSupportModule.cs:140-166 | the in-place loop visits each member once and terminates; the roster ends as Survivors, the registry as Drained, and one message per crossing |
| LifeSupport.CrewShare | source/SimpleSurvival/LifeSupportModule.cs:114-117 | the shared request crew_count·LS_DRAIN_PER_SEC·dt is non-negative |
| LifeSupport.ReserveShare | source/SimpleSurvival/LifeSupportModule.cs:146 | the per-member request EVA_LS_DRAIN_PER_SEC·dt is positive |
| LifeSupport.LifeSupportModule.FixedUpdate | source/SimpleSurvival/LifeSupportModule.cs:100-167 | no crew: only the flag resets. Breathable: nothing changes. Otherwise the shared request is withdrawn; if anything arrives the flag resets and the registry is untouched; if not, the first such tick warns and forces warp, the flag is set, and the crew drain as in DrainCrew |
| LifeSupport.LifeSupportModule.DrainCrew | source/SimpleSurvival/LifeSupportModule.cs:140-166 | the roster becomes Survivors, the registry Drained, and warp is forced iff some reserve crossed |
| EvaLifeSupport.WithdrawalClamps | source/SimpleSurvival/EVALifeSupportModule.cs:86 | a withdrawal from a pool leaves the registry's clamped deduction |
| EvaLifeSupport.EvaDrained | source/SimpleSurvival/EVALifeSupportModule.cs:86-94 | the reserve after a drained tick lies between 0 and what it was |
| EvaLifeSupport.StartupFloor | source/SimpleSurvival/EVALifeSupportModule.cs:59-60 | the charged reserve floored at KILL_BUFFER: at least KILL_BUFFER, and unchanged when already above |
| EvaLifeSupport.EvaLifeSupportModule.OnStart | source/SimpleSurvival/EVALifeSupportModule.cs:14-66 | the kerbal ends tracked; with no pool a fresh one holds the registry reserve; an existing pool is charged, floored at KILL_BUFFER, and a message goes out iff the charged reserve is in [KILL_BUFFER, 30 s) |
| EvaLifeSupport.EvaLifeSupportModule.FixedUpdate | source/SimpleSurvival/EVALifeSupportModule.cs:68-102 | the registry current becomes the pool amount before the drain; breathable: nothing else; otherwise the pool ends as the craft ticker's Drain, a crossing forces warp and warns, and the kerbal dies iff the pool was empty |
| Tracking.Clamp | source/SimpleSurvival/LifeSupportModule.cs:148 | the registry's assumed clamp: within [lo, hi] and the identity inside it |
| Tracking.WithTracked | source/SimpleSurvival/EVALifeSupportModule.cs:36 | AddKerbalToTracking adds the name (full) if new and changes nothing else |
| Tracking.TrackIdempotent | source/SimpleSurvival/EVALifeSupportModule.cs:36 | tracking a name twice is the same as once |
| Tracking.WithCurrent | source/SimpleSurvival/EVALifeSupportModule.cs:78 | SetCurrentEVAAmount changes only that name's current, clamped into [0, max] |
| Tracking.AddClampsAtZero | source/SimpleSurvival/LifeSupportModule.cs:148 | a deduction larger than the reserve leaves it at 0 |
| Tracking.Tracker.AddKerbalToTracking | source/SimpleSurvival/LifeSupportModule.cs:65 | the registry becomes WithTracked |
| Tracking.Tracker.InTracking | source/SimpleSurvival/Cons2LSModule.cs:63 | the name has an entry in the registry |
| Tracking.Tracker.GetEVALSInfo | source/SimpleSurvival/LifeSupportModule.cs:159 | a tracked entry lies within [0, max] with the default capacity |
| Tracking.Tracker.SetCurrentEVAAmount | source/SimpleSurvival/EVALifeSupportModule.cs:78 | the registry becomes WithCurrent |
| Tracking.Tracker.AddEVAAmount | source/SimpleSurvival/LifeSupportModule.cs:148 | the reserve changes by delta, clamped, and the new current is returned |
| Resources.Transfer | source/SimpleSurvival/LifeSupportModule.cs:120 | RequestResource moves at most the request, in its direction, never past empty or full, and short only when the pool ends empty or full |
| Resources.TransferInFull | source/SimpleSurvival/LifeSupportModule.cs:120 | a request is honoured in full iff it fits between the contents and the free space |
| Resources.TransferNothing | source/SimpleSurvival/EVALifeSupportModule.cs:86 | a withdrawal obtains nothing iff the pool is empty |
| Resources.Pool.Request | source/SimpleSurvival/LifeSupportModule.cs:120 | the pool moves Transfer of the request and returns it |
| Resources.StartupRequest | source/SimpleSurvival/LifeSupportModule.cs:55 | the stand-in answers a non-negative number of seconds and can only lower the pool |
| Host.Breathable | source/SimpleSurvival/LifeSupportModule.cs:111 | an oxygen atmosphere below OXYGEN_CUTOFF_ALTITUDE, as also tested at EVALifeSupportModule.cs:82 |
| Host.KillKerbal | source/SimpleSurvival/LifeSupportModule.cs:161 | removes exactly the member at i and keeps everyone else in order |
| Host.KillKeepsDistinct | source/SimpleSurvival/LifeSupportModule.cs:161 | removing a member keeps names distinct |

## Left out

- Display and logging: `GetInfo`, `OnUpdate` with `str_status`, `Util.Log` and all message texts. Messages are a ghost sequence of `Notice` kinds.
- `TimeWarp.SetRate(0)` is a ghost flag, `warpForced`.
- `TechLoader.cs` (R&D tree icons) is UI glue over the game and is not modelled.
- `part.explode()` and `Util.KillKerbals` in the EVA module reduce to `alive := false`.
- `HighLogic.LoadedSceneIsFlight` is the `inFlight` parameter. `FlightGlobals.ActiveVessel` is the `ActiveVessel` argument of `FillEva`. The ConfigNode that creates the EVA pool is `new Pool(amount, max)`.
- The EVA module's `foreach` over `part.Resources` looking for the EVA life-support resource (EVALifeSupportModule.cs:24-31) is not modelled as a loop. The part's EVA resource is the `pool` field of `EvaLifeSupportModule`, which is null when the part has none.
- Resource flow modes and vessel-wide aggregation: each scope's resource is one `Pool`. The craft ticker's `ls` pool stands for two scopes: the part's own life-support resource, set at LifeSupportModule.cs:43, and the flow-mode aggregate that line 120 requests from. The model treats them as one pool.
- Resources.Transfer: it is an assumption that `RequestResource` is maximal. A request falls short only when the pool ends empty (withdrawal) or full (deposit). CorrectionHonoured, CorrectionFits, SettleCharges, PullAsWrittenRollback, PullInFull, FullSupplyKeepsConverting, PullAsWrittenOvershoots, PullAsWrittenExample, EvaDrained (at its 0 end), WithdrawalClamps, DepositFills and WithdrawnInFull rely on it, and so do the kill-on-empty clauses of EvaLifeSupportModule.FixedUpdate.
- Floating point: every amount and rate is a `real`, and the constants are parameters with the signs `Config.Valid` states.
- The clock: `TimeWarp.fixedDeltaTime` is the `dt` parameter. The unloaded time that `Util.StartupRequest` reads is the `elapsed` parameter.
- `Util.StartupRequest`, `Util.KillKerbal`, `ContractChecker` and `EVALifeSupportTracker` are not part of this model. They are stand-ins with the contracts their call sites rely on. The registry clamping every written value into [0, max] is an assumption.
- The crew-name uniqueness (`DistinctNames`), "every crew member aboard is tracked" (`AllTracked`) and "the EVA pool's capacity is the registry capacity" (in `EvaLifeSupportModule.Valid` and in the EVA branch of `Cons2LSModule.FillEva`) preconditions state host facts the source takes for granted.
- Resources.StartupRequest: only the bounds are stated, not how the elapsed time is charged, because the source of `Util.StartupRequest` is not part of this model.
- Converter.Cons2LSModule.FixedUpdate: uses the corrected pull, which requests rate·dt. So do Converter.PullResource, Converter.ConvertTick and Converter.ReturnExcess. The as-written pull is modelled separately; see Findings.
- LifeSupport.LifeSupportModule.FixedUpdate: uses the corrected crossing test, on the value before the deduction. So do LifeSupport.DrainCrew, LifeSupport.KillLoop and LifeSupport.DrainMember. The as-written test is modelled separately; see Findings.
- EvaLifeSupport.EvaLifeSupportModule.FixedUpdate: requires the kerbal to be alive, tracked and given a pool. OnStart establishes the last two. Ticks after the part has exploded are not modelled.
- LifeSupport.ChargeVessel: for a vessel without a rescue contract, states only that the amount does not rise and the deduction is non-negative, because that is all the StartupRequest stand-in promises.

Two details of `FillEVA` that the model keeps as the code has them. Its vessel branch sets each tracked reserve to max whether or not the consumables were obtained. Its EVA branch deposits the full capacity `info.max` into the EVA pool, not the deficit, and leaves the registry to the EVA module's next tick.

## Findings

| source | as written | input that shows it | evidently intended | confidence | as-written member | corrected member |
|---|---|---|---|---|---|---|
| source/SimpleSurvival/Cons2LSModule.cs:137-145 | `PullResource` requests `amount` (a per-second rate) but divides what it obtained by `req = amount·dt` | pool 10 of 10, rate 1, dt 0.02: it takes 1 (50 ticks' worth) and reports fraction 50 | request `req`, so the fraction lies in [0, 1]. As written, a tick with no shortfall charges each pool a whole second's `rate`, 1/dt times rate·dt. A shortfall is still seen only when a pool cannot supply almostOne·rate·dt, and the rollback at lines 115-121 still charges exactly min_frac·rate·dt. | not executed | Converter.PullAsWritten, Converter.PullAsWrittenExample, Converter.PullAsWrittenOvershoots, Converter.PullAsWrittenRollback | Converter.Pull, Converter.PullScales, Converter.PullResource |
| source/SimpleSurvival/LifeSupportModule.cs:148-151 | the downward crossing is tested as `current_eva + request > 30 s`, which stands for the reserve before the deduction only when the registry did not clamp at 0 | reserve 5, threshold 30, request 40 (a long time-warp step): 0 + 40 > 30, so the reserve is raised to 30 | test the reserve before the deduction, as the EVA module does at EVALifeSupportModule.cs:88-89 | not executed; relies on the assumed clamping of AddEVAAmount | LifeSupport.DrainAsWritten, LifeSupport.DrainAsWrittenRevives | LifeSupport.Drain, LifeSupport.CrossesOnce, LifeSupport.DrainMember |
