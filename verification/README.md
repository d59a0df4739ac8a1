# ScalableMassBehaviour core, modelled in Dafny

This project models the gameplay core of the ScalableMassBehaviour Unreal Engine plugin and proves properties about that model. The plugin drives large crowds of Mass entities. Its world subsystem (`USmbSubsystem`) keeps:

- a sparse spatial grid of entity handles;
- a registry of resource depots;
- a destruction countdown and a queue of deferred ability effects;
- a registry of projectile handlers.

On top of these it answers team-aware queries and deals damage. Small per-entity state machines use the subsystem:

- the register processor re-files moving entities in the grid and detects stalls;
- the ability processor runs the attack cycle;
- the resource task gathers, drops and processes resources.

The Mass entity manager is a directory `map<Handle, Entity>`: a record of optional fragments per live handle. `IsEntityValid` is membership in that directory. Distances are compared through their squares (`DistSq`), which orders them exactly as `.Size()` does (`SmbCommon.LengthComparisons`). HP, times and distances are `real`. Resource amounts are unbounded integers.

Modules, one per concern of the source:

| module | models |
|---|---|
| `SmbCommon` | vectors, handles, enums, truncation toward zero |
| `SmbFragments` | the fragment records, their `GetValidated` clamps, `FStateFragment` |
| `SmbEntities` | the entity directory, `FSmbEntityData` and its sentinel |
| `SmbGrid` | `UGrid` as a class over nested maps, specified by pure functions |
| `SmbQueries` | what the closest-resource, closest-enemy, n-closest and selection queries compute |
| `SmbDamage` | the armour rule, the HP floor, area and selected damage |
| `SmbLedger` | carried amounts, stored totals, all-or-nothing deduction |
| `SmbQueues` | the ability-effect queue and the destruction countdown |
| `SmbAbility` | `USmbAbilityData`, its gameplay tags reduced to a skill kind |
| `SmbSubsystem` | the `USmbSubsystem` class and the loops of its methods |
| `SmbTasks` | `FProcessResource::Tick`, `FIsCloseEnoughCondition`, `FFindClosestEnemy::EnterState` |
| `SmbProcessors` | `URegisterProcessor::Execute` and `UAbilityProcessor::Execute`, per entity and per chunk |

State the source changes in place is modelled imperatively:

- The subsystem and the grid are classes.
- Each method is proved against a pure specification function: `Around`, `Removed`, `Totals`, `Lowered`, `Aoe`, `Pending`, `Registered`, `Attack`, ...
- The lemmas beside each specification function state what the source promises.

Where the code and its comments or tooltips disagree, the model follows the code. The armour weaknesses are an example. The `EArmorType` tooltips call heavy armour weak to piercing and medium armour weak to blunt. `DealDamageToEnemy` and `DealDamageAoe` double Blunt damage against heavy armour, Slashing against light and Piercing against medium, and `SmbDamage.Multiplier` follows the code.

## Model

| member | source | states |
|---|---|---|
| SmbCommon.TruncToInt | Plugins/ScalableMassBehaviour/Source/ScalableMassBehaviour/Private/SmbSubsystem.cpp:905-906 | a float converted to int32 drops its fraction toward zero: for x >= 0 the result n is 0 <= n <= x < n+1, for x < 0 it is n-1 < x <= n <= 0 |
| SmbCommon.LengthComparisons | Plugins/ScalableMassBehaviour/Source/ScalableMassBehaviour/Private/SmbSubsystem.cpp:574 | for a length d with square q, `d <= r` and `d < r` hold exactly when the squared comparisons used by the model hold, so comparing squared distances decides the same as comparing `.Size()` |
| SmbEntities.EntityDataOf | Plugins/ScalableMassBehaviour/Source/ScalableMassBehaviour/Public/SmbSubsystem.h:40-44 | the two-int constructor takes the serial number first and the index second; it yields the "no entity" sentinel exactly for (-1, -1) |
| SmbEntities.FromHandle | Plugins/ScalableMassBehaviour/Source/ScalableMassBehaviour/Public/SmbSubsystem.h:46-50 | FSmbEntityData built from a handle keeps both index and serial number, so converting back gives the same handle |
| SmbEntities.SentinelsAreNotLive | Plugins/ScalableMassBehaviour/Source/ScalableMassBehaviour/Public/SmbSubsystem.h:52-56 | when every live handle has an index above 0 (index 0 is reserved by the entity manager), neither the "no entity" data (-1, -1) nor the default handle is live, and no live handle converts to the sentinel |
| SmbFragments.ResourceFragment.GetValidated | Plugins/ScalableMassBehaviour/Source/ScalableMassBehaviour/Public/SmbFragments.h:30-35 | TimeSinceGatherStart is raised to 0 when negative; Carrying and BonusMap are copied; a valid fragment is returned unchanged |
| SmbFragments.AnimationFragment.GetValidated | Plugins/ScalableMassBehaviour/Source/ScalableMassBehaviour/Public/SmbFragments.h:64-72 | unit scale, offset time and speed are raised to KINDA_SMALL_NUMBER when below it; every other field is copied |
| SmbFragments.DefenceFragment.GetValidated | Plugins/ScalableMassBehaviour/Source/ScalableMassBehaviour/Public/SmbFragments.h:197-204 | MaxHP and HP are raised to at least KINDA_SMALL_NUMBER; UnitArmor is copied |
| SmbFragments.TeamFragment.GetValidated | Plugins/ScalableMassBehaviour/Source/ScalableMassBehaviour/Public/SmbFragments.h:226-232 | TeamID becomes max(TeamID, -1); bIsSelected is copied |
| SmbFragments.AttackFragment.GetValidated | Plugins/ScalableMassBehaviour/Source/ScalableMassBehaviour/Public/SmbFragments.h:262-272 | damage, rate, range, delay until damage and recovery time are raised to KINDA_SMALL_NUMBER; the counters, timers and damage type are copied |
| SmbFragments.ProjectileParams.GetValidated | Plugins/ScalableMassBehaviour/Source/ScalableMassBehaviour/Public/SmbFragments.h:332-338 | InitialSpeed is raised to 0 when negative; damage, damage type, area radius and team are copied |
| SmbFragments.LocationDataFragment.GetValidated | Plugins/ScalableMassBehaviour/Source/ScalableMassBehaviour/Public/SmbFragments.h:393-400 | BaseRefresh is raised to 0 when negative and the refresh timer starts at the random draw (not below 0); nothing else changes |
| SmbFragments.HeightFragment.GetValidated | Plugins/ScalableMassBehaviour/Source/ScalableMassBehaviour/Public/SmbFragments.h:455-464 | interpolation speed at least 10, refresh period at least 0.01, nav-check multiplier at least 0.5, timer set to the random draw; heights copied |
| SmbFragments.CollisionDataFragment.GetValidated | Plugins/ScalableMassBehaviour/Source/ScalableMassBehaviour/Public/SmbFragments.h:497-505 | CheckDelay >= 0, TimeSinceLastCheck >= 0, MaxEntitiesToCheck >= 1; CollisionMass copied |
| SmbFragments.DeathPhysicsSharedFragment.GetValidated | Plugins/ScalableMassBehaviour/Source/ScalableMassBehaviour/Public/SmbFragments.h:532-537 | TotalDeaths raised to 0 when negative; death locations and delay copied |
| SmbFragments.AbilityDataFragment.GetValidated | Plugins/ScalableMassBehaviour/Source/ScalableMassBehaviour/Public/SmbFragments.h:582-588 | Cooldown raised to 0 when negative; the other designer settings copied |
| SmbFragments.NearEnemiesFragment.GetValidated | Plugins/ScalableMassBehaviour/Source/ScalableMassBehaviour/Public/SmbFragments.h:624-632 | check period at least 0.02, amount of enemies at least 1, timer set to the random draw; radius and closest enemies copied |
| SmbFragments.ValidationIsIdempotent | Plugins/ScalableMassBehaviour/Source/ScalableMassBehaviour/Public/SmbFragments.h:226-232 | validating a fragment twice gives the same fragment as validating it once, for every fragment (a random timer is fed the value the first validation chose) |
| SmbFragments.StateFragment.constructor | Plugins/ScalableMassBehaviour/Source/ScalableMassBehaviour/Public/SmbFragments.h:183-186 | a new state fragment has Passive as both its current and previous aggression state |
| SmbFragments.StateFragment.GetCurrentAggressionState | Plugins/ScalableMassBehaviour/Source/ScalableMassBehaviour/Public/SmbFragments.h:170-173 | returns the current aggression state |
| SmbFragments.StateFragment.GetPreviousAggressionState | Plugins/ScalableMassBehaviour/Source/ScalableMassBehaviour/Public/SmbFragments.h:175-178 | returns the previous aggression state |
| SmbFragments.StateFragment.SetAggressionState | Plugins/ScalableMassBehaviour/Source/ScalableMassBehaviour/Public/SmbFragments.h:164-168 | the previous state becomes the old current state and the current state becomes the new one, as both getters then report |
| SmbGrid.VectorToCell | Plugins/ScalableMassBehaviour/Source/ScalableMassBehaviour/Private/SmbSubsystem.cpp:903-908 | each cell coordinate is the world coordinate divided by CellSize (500) and truncated toward zero: non-negative coordinates floor, negative ones round up |
| SmbGrid.CellZeroStraddlesOrigin | Plugins/ScalableMassBehaviour/Source/ScalableMassBehaviour/Private/SmbSubsystem.cpp:903-908 | truncation puts x = -499 and x = 499 in the same cell 0, while -500 is in cell -1 |
| SmbGrid.Without | Plugins/ScalableMassBehaviour/Source/ScalableMassBehaviour/Private/SmbSubsystem.cpp:929 | TArray::Remove drops every occurrence of the handle and keeps every other handle with its multiplicity |
| SmbGrid.WithoutAbsent | Plugins/ScalableMassBehaviour/Source/ScalableMassBehaviour/Private/SmbSubsystem.cpp:929 | removing a handle that is not in the cell leaves the cell unchanged |
| SmbGrid.Removed | Plugins/ScalableMassBehaviour/Source/ScalableMassBehaviour/Private/SmbSubsystem.cpp:921-931 | RemoveAt changes only cell (x, y), dropping the handle there, and creates no column |
| SmbGrid.Added | Plugins/ScalableMassBehaviour/Source/ScalableMassBehaviour/Private/SmbSubsystem.cpp:947-956 | AddToGrid appends one copy of the handle to cell (x, y), creating the column and cell if absent; every other cell unchanged |
| SmbGrid.AroundMembership | Plugins/ScalableMassBehaviour/Source/ScalableMassBehaviour/Private/SmbSubsystem.cpp:933-945 | a handle is returned by GetAround(x, y, r) exactly when some cell (x+i, y+j) with i, j in [-r, r) holds it |
| SmbGrid.AroundEmpty | Plugins/ScalableMassBehaviour/Source/ScalableMassBehaviour/Private/SmbSubsystem.cpp:936-938 | GetAround with radius 0 or less returns nothing |
| SmbGrid.InsertThenQuery | Plugins/ScalableMassBehaviour/Source/ScalableMassBehaviour/Private/SmbSubsystem.cpp:933-956 | a handle added to the cell of a position is found by GetAround of radius 1 or more centred on that cell |
| SmbGrid.AroundMissesPositiveNeighbour | Plugins/ScalableMassBehaviour/Source/ScalableMassBehaviour/Private/SmbSubsystem.cpp:936-938 | the window is not centred: with radius 1 a handle stored only in cell (x+1, y) is not found |
| SmbGrid.Relocation | Plugins/ScalableMassBehaviour/Source/ScalableMassBehaviour/Private/SmbSubsystem.cpp:515-518 | RegisterToGrid's grid change removes every copy of the handle from the old cell, appends one copy to the new cell and changes no other cell |
| SmbGrid.RelocationKeepsOneCell | Plugins/ScalableMassBehaviour/Source/ScalableMassBehaviour/Private/SmbSubsystem.cpp:515-518 | if the handle was in no cell but the old one, afterwards it is in the new cell exactly once and nowhere else |
| SmbGrid.Grid.constructor | Plugins/ScalableMassBehaviour/Source/ScalableMassBehaviour/Private/SmbSubsystem.cpp:57 | a new grid has no cells |
| SmbGrid.Grid.RemoveAt | Plugins/ScalableMassBehaviour/Source/ScalableMassBehaviour/Private/SmbSubsystem.cpp:921-931 | the grid becomes Removed(old, x, y, h) and the cell's remaining handles are returned |
| SmbGrid.Grid.AddToGrid | Plugins/ScalableMassBehaviour/Source/ScalableMassBehaviour/Private/SmbSubsystem.cpp:947-956 | the grid becomes Added(old, x, y, h) |
| SmbGrid.Grid.GetAround | Plugins/ScalableMassBehaviour/Source/ScalableMassBehaviour/Private/SmbSubsystem.cpp:933-945 | the nested loop returns exactly Around(cells, x, y, r), the window concatenated row by row |
| SmbGrid.Grid.EmptySelf | Plugins/ScalableMassBehaviour/Source/ScalableMassBehaviour/Private/SmbSubsystem.cpp:958-981 | every cell of every column is emptied; no column or cell is removed |
| SmbQueries.QueryCellRadius | Plugins/ScalableMassBehaviour/Source/ScalableMassBehaviour/Private/SmbSubsystem.cpp:454-455 | the searched cell radius is 1 + trunc(radius / CellSize), which is at least 1 and covers the world radius |
| SmbQueries.FirstClosestIndex | Plugins/ScalableMassBehaviour/Source/ScalableMassBehaviour/Private/SmbSubsystem.cpp:229-238 | for a non-empty list, GetClosestResource's strictly-closer scan picks a position no farther than any other and strictly closer than every earlier one |
| SmbQueries.FirstClosestIsUnique | Plugins/ScalableMassBehaviour/Source/ScalableMassBehaviour/Private/SmbSubsystem.cpp:231-238 | the first closest position is unique, so the scan's answer is determined |
| SmbQueries.ClosestEnemyIndex | Plugins/ScalableMassBehaviour/Source/ScalableMassBehaviour/Private/SmbSubsystem.cpp:463-479 | -1 exactly when no handle is live, placed, on another team, with a defence and HP > 0; otherwise the first such handle at the least distance |
| SmbQueries.ClosestEnemyStep | Plugins/ScalableMassBehaviour/Source/ScalableMassBehaviour/Private/SmbSubsystem.cpp:474-478 | one more handle replaces the current choice only when it is a candidate strictly closer |
| SmbQueries.ClosestEnemyIsUnique | Plugins/ScalableMassBehaviour/Source/ScalableMassBehaviour/Private/SmbSubsystem.cpp:463-479 | at most one position is the first closest enemy |
| SmbQueries.TeamOrNone | Plugins/ScalableMassBehaviour/Source/ScalableMassBehaviour/Private/SmbSubsystem.cpp:368-372 | an entity without a team fragment counts as team -2 |
| SmbQueries.NearPairs | Plugins/ScalableMassBehaviour/Source/ScalableMassBehaviour/Private/SmbSubsystem.cpp:362-383 | every collected pair is a live, placed candidate within the radius not of the excluded team, with its distance key, and every such candidate is collected |
| SmbQueries.InsertByKeySorts | Plugins/ScalableMassBehaviour/Source/ScalableMassBehaviour/Private/SmbSubsystem.cpp:385-387 | insertion into a distance-sorted list keeps it sorted and adds exactly the new pair |
| SmbQueries.HandlesOf | Plugins/ScalableMassBehaviour/Source/ScalableMassBehaviour/Private/SmbSubsystem.cpp:390-393 | the result lists the handles of the pairs in order |
| SmbQueries.PrefixInOrder | Plugins/ScalableMassBehaviour/Source/ScalableMassBehaviour/Private/SmbSubsystem.cpp:389-393 | the first n handles of the sorted pairs are candidates in non-decreasing distance |
| SmbQueries.PrefixKeepsCloser | Plugins/ScalableMassBehaviour/Source/ScalableMassBehaviour/Private/SmbSubsystem.cpp:389-393 | a candidate left out of the prefix is no closer than the last handle kept |
| SmbQueries.ClosestPrefix | Plugins/ScalableMassBehaviour/Source/ScalableMassBehaviour/Private/SmbSubsystem.cpp:353-396 | cutting the sorted pairs at min(Amount, count) answers GetNumberClosestEntities: that many candidates, sorted by distance, none left out that is closer |
| SmbQueries.SelectionWindow | Plugins/ScalableMassBehaviour/Source/ScalableMassBehaviour/Private/SmbSubsystem.cpp:760-763 | the window is centred on the midpoint of the corner cells with the Manhattan cell distance as radius; corners in one cell give radius 0 |
| SmbQueries.Selected | Plugins/ScalableMassBehaviour/Source/ScalableMassBehaviour/Private/SmbSubsystem.cpp:765-792 | a handle is selected exactly when it is among the candidates, live, placed inside the box, of the requested team (any team for -1; a teamless entity always passes) and not at HP 0 or below when it has a defence |
| SmbQueries.OneCellBoxSelectsNothing | Plugins/ScalableMassBehaviour/Source/ScalableMassBehaviour/Private/SmbSubsystem.cpp:760-763 | a box whose corners fall in one cell searches no cell, so nothing is selected |
| SmbDamage.Multiplier | Plugins/ScalableMassBehaviour/Source/ScalableMassBehaviour/Private/SmbSubsystem.cpp:497-502 | the damage is doubled exactly for (Blunt, heavy), (Slashing, light) and (Piercing, medium) armour |
| SmbDamage.AfterHit | Plugins/ScalableMassBehaviour/Source/ScalableMassBehaviour/Private/SmbSubsystem.cpp:503-508 | HP after a hit is hp - amount floored at 0; it is 0 exactly when the hit reaches 0 |
| SmbDamage.AoeStepKeeps | Plugins/ScalableMassBehaviour/Source/ScalableMassBehaviour/Private/SmbSubsystem.cpp:566-594 | one candidate of the area loop changes nothing but HP, and no entity but that candidate |
| SmbDamage.AoeStepHits | Plugins/ScalableMassBehaviour/Source/ScalableMassBehaviour/Private/SmbSubsystem.cpp:568-593 | a candidate is skipped or signalled; a signalled one ends with HP >= 0, adds at most one kill and doubles the amount when weak |
| SmbDamage.AoeOnlyHp | Plugins/ScalableMassBehaviour/Source/ScalableMassBehaviour/Private/SmbSubsystem.cpp:566-594 | an area hit changes nothing but HP |
| SmbDamage.AoeEffects | Plugins/ScalableMassBehaviour/Source/ScalableMassBehaviour/Private/SmbSubsystem.cpp:566-598 | only signalled entities change, and only in HP; the signalled handles are exactly the candidates that were live, within radius + agent radius of the centre, with a defence, alive and not on the attacker's team before the hit; each ends with HP >= 0; the kill counter grows by exactly the number of signalled handles left at HP 0 |
| SmbDamage.DeadStep | Plugins/ScalableMassBehaviour/Source/ScalableMassBehaviour/Private/SmbSubsystem.cpp:577-593 | hitting a live handle adds it to the dead exactly when the hit leaves it at HP 0, and nobody else joins the dead |
| SmbDamage.KillCounted | Plugins/ScalableMassBehaviour/Source/ScalableMassBehaviour/Private/SmbSubsystem.cpp:588-593 | counting a kill exactly when the hit reaches HP 0 keeps the kill counter equal to the number of dead signalled handles |
| SmbDamage.AoeKillBound | Plugins/ScalableMassBehaviour/Source/ScalableMassBehaviour/Private/SmbSubsystem.cpp:566-594 | over any candidate list: nothing but HP changes, newly signalled entities end with HP >= 0, and each signal adds at most one kill |
| SmbDamage.AoeHitsExactly | Plugins/ScalableMassBehaviour/Source/ScalableMassBehaviour/Private/SmbSubsystem.cpp:566-594 | over any candidate list: a handle is signalled exactly when it is a candidate that was a target before the hit, and the kills are the signalled handles at HP 0 |
| SmbDamage.AoeHitsStep | Plugins/ScalableMassBehaviour/Source/ScalableMassBehaviour/Private/SmbSubsystem.cpp:568-593 | one more candidate keeps the exact-targets invariant |
| SmbDamage.AoeCompounds | Plugins/ScalableMassBehaviour/Source/ScalableMassBehaviour/Private/SmbSubsystem.cpp:582-588 | the loop-carried amount ends doubled once per signalled weak target, so later targets receive every earlier doubling |
| SmbDamage.NormalAoeIsFlat | Plugins/ScalableMassBehaviour/Source/ScalableMassBehaviour/Private/SmbSubsystem.cpp:582-587 | Normal damage is never doubled, so the amount stays the same for every target |
| SmbDamage.SubUnitRadiusHitsNobody | Plugins/ScalableMassBehaviour/Source/ScalableMassBehaviour/Private/SmbSubsystem.cpp:561-562 | the world radius is passed as a cell radius; a radius below 1 searches no cell and hits nobody |
| SmbDamage.DamageSelectedEffects | Plugins/ScalableMassBehaviour/Source/ScalableMassBehaviour/Private/SmbSubsystem.cpp:824-844 | only signalled entities change, and only in HP; the signalled handles are exactly the handles of the selected entries that were live, with a defence, alive and on another team before the loop; each ends with HP >= 0; the kill counter grows by exactly the number of signalled handles left at HP 0 |
| SmbDamage.SelStepKeeps | Plugins/ScalableMassBehaviour/Source/ScalableMassBehaviour/Private/SmbSubsystem.cpp:826-840 | one selected entry changes nothing but HP; it is signalled exactly when it is a target, then ends with HP >= 0 and adds at most one kill |
| SmbDamage.SelKillBound | Plugins/ScalableMassBehaviour/Source/ScalableMassBehaviour/Private/SmbSubsystem.cpp:824-844 | over any selection: nothing but HP changes, newly signalled entities end with HP >= 0, and each signal adds at most one kill |
| SmbDamage.SelHitsExactly | Plugins/ScalableMassBehaviour/Source/ScalableMassBehaviour/Private/SmbSubsystem.cpp:824-844 | over any selection: a handle is signalled exactly when a selected entry names it and it was a target before the loop, and the kills are the signalled handles at HP 0 |
| SmbDamage.SelHitsStep | Plugins/ScalableMassBehaviour/Source/ScalableMassBehaviour/Private/SmbSubsystem.cpp:826-840 | one more selected entry keeps the exact-targets invariant |
| SmbLedger.AllKindsListsEveryKind | Plugins/ScalableMassBehaviour/Source/ScalableMassBehaviour/Public/ScalableMassBehaviour.h:22-33 | the walk over kinds lists every EProcessable exactly once |
| SmbLedger.Deposit | Plugins/ScalableMassBehaviour/Source/ScalableMassBehaviour/Private/SmbSubsystem.cpp:305-306 | AddToEntity on the carried map: the kind is created at 0 if absent, then raised by the amount; other kinds unchanged |
| SmbLedger.Withdraw | Plugins/ScalableMassBehaviour/Source/ScalableMassBehaviour/Private/SmbSubsystem.cpp:317-319 | RemoveFromEntity fails for an absent kind or too small an amount, and otherwise lowers only that kind |
| SmbLedger.WithdrawLeavesNonNegative | Plugins/ScalableMassBehaviour/Source/ScalableMassBehaviour/Private/SmbSubsystem.cpp:318-319 | a successful removal leaves the kind at 0 or more |
| SmbLedger.DepositUndoesWithdraw | Plugins/ScalableMassBehaviour/Source/ScalableMassBehaviour/Private/SmbSubsystem.cpp:300-322 | adding back what was removed restores the carried amounts |
| SmbLedger.WithdrawUndoesDeposit | Plugins/ScalableMassBehaviour/Source/ScalableMassBehaviour/Private/SmbSubsystem.cpp:300-322 | removing what was just added succeeds exactly when the kind was not negative and restores the amounts |
| SmbLedger.EmptySum | Plugins/ScalableMassBehaviour/Source/ScalableMassBehaviour/Private/SmbSubsystem.cpp:332 | nothing carried sums to 0 |
| SmbLedger.DepositRaisesSum | Plugins/ScalableMassBehaviour/Source/ScalableMassBehaviour/Private/SmbSubsystem.cpp:305-306 | AddToEntity raises the carried total by the amount |
| SmbLedger.WithdrawLowersSum | Plugins/ScalableMassBehaviour/Source/ScalableMassBehaviour/Private/SmbSubsystem.cpp:319 | a successful RemoveFromEntity lowers the carried total by the amount |
| SmbLedger.BaseTotals | Plugins/ScalableMassBehaviour/Source/ScalableMassBehaviour/Private/SmbSubsystem.cpp:244-248 | GetTotalStored always reports Gold, Wood, Stone and Food, starting at 0 |
| SmbLedger.CreditKeysAt | Plugins/ScalableMassBehaviour/Source/ScalableMassBehaviour/Private/SmbSubsystem.cpp:255-263 | one depot adds an entry for every carried kind and adds only positive amounts |
| SmbLedger.NothingStoredWithoutEntry | Plugins/ScalableMassBehaviour/Source/ScalableMassBehaviour/Private/SmbSubsystem.cpp:250-264 | a kind no depot has an entry for is stored nowhere |
| SmbLedger.TotalsAt | Plugins/ScalableMassBehaviour/Source/ScalableMassBehaviour/Private/SmbSubsystem.cpp:242-267 | a kind is reported when it is a base kind or some live depot has it, with the sum of the positive amounts the depots carry |
| SmbLedger.TotalsAreStored | Plugins/ScalableMassBehaviour/Source/ScalableMassBehaviour/Private/SmbSubsystem.cpp:242-267 | every reported total is the stored amount and is never negative |
| SmbLedger.SettleKeysAt | Plugins/ScalableMassBehaviour/Source/ScalableMassBehaviour/Private/SmbSubsystem.cpp:287-293 | one depot pays: a kind in both maps loses min(carried, owed) from both |
| SmbLedger.LoweredFrame | Plugins/ScalableMassBehaviour/Source/ScalableMassBehaviour/Private/SmbSubsystem.cpp:282-294 | paying changes only the carried amounts of listed depots; live handles and every other fragment stay |
| SmbLedger.LoweredCost | Plugins/ScalableMassBehaviour/Source/ScalableMassBehaviour/Private/SmbSubsystem.cpp:282-294 | with no negative amounts and distinct depots, the unpaid cost of each kind is what the depots could not cover |
| SmbLedger.LoweredKeeps | Plugins/ScalableMassBehaviour/Source/ScalableMassBehaviour/Private/SmbSubsystem.cpp:282-294 | the depots' stored amount of each cost kind drops by the part of the cost they covered |
| SmbLedger.AffordableIsPaid | Plugins/ScalableMassBehaviour/Source/ScalableMassBehaviour/Private/SmbSubsystem.cpp:274-294 | a cost the first loop accepts is paid in full by the second |
| SmbLedger.LoweredStaysNonNegative | Plugins/ScalableMassBehaviour/Source/ScalableMassBehaviour/Private/SmbSubsystem.cpp:290-292 | no carried amount and no owed amount goes below 0 |
| SmbLedger.LowerResourceDeducts | Plugins/ScalableMassBehaviour/Source/ScalableMassBehaviour/Private/SmbSubsystem.cpp:270-297 | on success the stored amount of each cost kind drops by exactly its cost |
| SmbQueues.DecrementedAll | Plugins/ScalableMassBehaviour/Source/ScalableMassBehaviour/Private/SmbSubsystem.cpp:177-178 | every queued delay is lowered by DeltaTime exactly once, in order |
| SmbQueues.PendingCount | Plugins/ScalableMassBehaviour/Source/ScalableMassBehaviour/Private/SmbSubsystem.cpp:175-197 | an entry is kept once per original entry lowering to it, provided it is still positive |
| SmbQueues.FiredCount | Plugins/ScalableMassBehaviour/Source/ScalableMassBehaviour/Private/SmbSubsystem.cpp:175-197 | an entry fires once per original entry lowering to it, provided it is at or below 0 |
| SmbQueues.PendingStillWait | Plugins/ScalableMassBehaviour/Source/ScalableMassBehaviour/Private/SmbSubsystem.cpp:179 | every kept entry has a positive delay |
| SmbQueues.FiredAreDue | Plugins/ScalableMassBehaviour/Source/ScalableMassBehaviour/Private/SmbSubsystem.cpp:179 | every fired entry has a delay at or below 0 |
| SmbQueues.PendingOfPermutation | Plugins/ScalableMassBehaviour/Source/ScalableMassBehaviour/Private/SmbSubsystem.cpp:194-195 | which entries are kept or fired does not depend on the order the swap-removal leaves |
| SmbQueues.PendingAndFiredPartition | Plugins/ScalableMassBehaviour/Source/ScalableMassBehaviour/Private/SmbSubsystem.cpp:175-197 | every entry is lowered once and ends either kept or fired, never both, never lost |
| SmbQueues.LongDelaysWait | Plugins/ScalableMassBehaviour/Source/ScalableMassBehaviour/Private/SmbSubsystem.cpp:179 | entries with a delay greater than DeltaTime are all kept |
| SmbQueues.Scheduled | Plugins/ScalableMassBehaviour/Source/ScalableMassBehaviour/Private/SmbSubsystem.cpp:657-662 | DestroyDelayed adds the handle with its delay unless already pending; existing entries keep their delays |
| SmbQueues.ScheduleIsIdempotent | Plugins/ScalableMassBehaviour/Source/ScalableMassBehaviour/Private/SmbSubsystem.cpp:659 | scheduling a pending handle again changes nothing, whatever the delay |
| SmbQueues.CountedDown | Plugins/ScalableMassBehaviour/Source/ScalableMassBehaviour/Private/SmbSubsystem.cpp:667-670 | every pending delay lowered by DeltaTime; no entry removed |
| SmbQueues.Expired | Plugins/ScalableMassBehaviour/Source/ScalableMassBehaviour/Private/SmbSubsystem.cpp:671-673 | the handles destroyed on a tick are those whose delay reached 0 or less |
| SmbQueues.ExpiredStaysExpired | Plugins/ScalableMassBehaviour/Source/ScalableMassBehaviour/Private/SmbSubsystem.cpp:664-675 | expired entries are never removed, so an expired handle is destroyed again on every later tick |
| SmbQueues.NothingExpires | Plugins/ScalableMassBehaviour/Source/ScalableMassBehaviour/Private/SmbSubsystem.cpp:666 | with nothing pending nothing changes and nothing is destroyed |
| SmbSubsystem.ProcessableReqArr.EmptyArr | Plugins/ScalableMassBehaviour/Source/ScalableMassBehaviour/Public/SmbSubsystem.h:64-68 | both parallel arrays are emptied |
| SmbSubsystem.ResourceReqMap.EmptyMap | Plugins/ScalableMassBehaviour/Source/ScalableMassBehaviour/Public/SmbSubsystem.h:79-86 | after every requirement list is emptied the map has no keys |
| SmbSubsystem.ResourceReqMap.constructor | Plugins/ScalableMassBehaviour/Source/ScalableMassBehaviour/Public/SmbSubsystem.h:88 | a new requirement map has no keys |
| SmbSubsystem.Credit | Plugins/ScalableMassBehaviour/Source/ScalableMassBehaviour/Private/SmbSubsystem.cpp:255-263 | the inner loop of GetTotalStored, run over every kind, computes CreditKeys: the depot's positive amounts are added to the report |
| SmbSubsystem.CoversCost | Plugins/ScalableMassBehaviour/Source/ScalableMassBehaviour/Private/SmbSubsystem.cpp:274-280 | the first loop of LowerResource succeeds exactly when every cost kind is reported and covered |
| SmbSubsystem.HitIfInReach | Plugins/ScalableMassBehaviour/Source/ScalableMassBehaviour/Private/SmbSubsystem.cpp:568-593 | one handle of DealDamageAoe's loop: exactly AoeHit |
| SmbSubsystem.HitInReach | Plugins/ScalableMassBehaviour/Source/ScalableMassBehaviour/Private/SmbSubsystem.cpp:566-594 | DealDamageAoe's loop with its loop-carried amount computes Aoe over the candidates |
| SmbSubsystem.HitSelected | Plugins/ScalableMassBehaviour/Source/ScalableMassBehaviour/Private/SmbSubsystem.cpp:824-844 | DamageSelectedEntities' loop computes DamageSelected and the repeated signal batches |
| SmbSubsystem.ScanForClosestEnemy | Plugins/ScalableMassBehaviour/Source/ScalableMassBehaviour/Private/SmbSubsystem.cpp:463-479 | GetClosestEnemy's loop computes ClosestEnemyIndex |
| SmbSubsystem.AddCarried | Plugins/ScalableMassBehaviour/Source/ScalableMassBehaviour/Private/SmbSubsystem.cpp:333-336 | GetEntityResources' loop adds every carried amount to the total |
| SmbSubsystem.Settle | Plugins/ScalableMassBehaviour/Source/ScalableMassBehaviour/Private/SmbSubsystem.cpp:287-293 | LowerResource's inner loop computes SettleKeys: each owed kind loses min(carried, owed) from both maps |
| SmbSubsystem.SortByKey | Plugins/ScalableMassBehaviour/Source/ScalableMassBehaviour/Private/SmbSubsystem.cpp:385-387 | the distance list sorted ascending by key, as a permutation of the input |
| SmbSubsystem.Subsystem.constructor | Plugins/ScalableMassBehaviour/Source/ScalableMassBehaviour/Private/SmbSubsystem.cpp:43-61 | a new subsystem has the given entity directory, an empty grid, resource registry, countdown, ability queue and handler list |
| SmbSubsystem.Subsystem.GetResources | Plugins/ScalableMassBehaviour/Source/ScalableMassBehaviour/Private/SmbSubsystem.cpp:218-222 | the location list has the same length as the handle list of the kind, so the two stay in parallel |
| SmbSubsystem.Subsystem.RegisterResource | Plugins/ScalableMassBehaviour/Source/ScalableMassBehaviour/Private/SmbSubsystem.cpp:205-216 | location and handle appended to the kind's lists, created if absent; success exactly when the entity is not pending creation |
| SmbSubsystem.Subsystem.ClosestResource | Plugins/ScalableMassBehaviour/Source/ScalableMassBehaviour/Private/SmbSubsystem.cpp:224-240 | the default handle when nothing of the kind is registered; otherwise the handle paired with the first closest location |
| SmbSubsystem.Subsystem.GetClosestResource | Plugins/ScalableMassBehaviour/Source/ScalableMassBehaviour/Private/SmbSubsystem.cpp:224-240 | the strictly-closer scan returns ClosestResource |
| SmbSubsystem.Subsystem.TotalStored | Plugins/ScalableMassBehaviour/Source/ScalableMassBehaviour/Private/SmbSubsystem.cpp:242-267 | the report always contains the four base kinds; what it holds for each kind is stated by SmbLedger.TotalsAt |
| SmbSubsystem.Subsystem.GetTotalStored | Plugins/ScalableMassBehaviour/Source/ScalableMassBehaviour/Private/SmbSubsystem.cpp:242-267 | the loops over the Storage depots and their carried kinds return TotalStored |
| SmbSubsystem.Subsystem.LowerResource | Plugins/ScalableMassBehaviour/Source/ScalableMassBehaviour/Private/SmbSubsystem.cpp:270-297 | all or nothing: true exactly when every cost kind is reported and covered by the totals; then the Storage depots pay in order (Lowered); otherwise nothing changes |
| SmbSubsystem.Subsystem.AddToEntity | Plugins/ScalableMassBehaviour/Source/ScalableMassBehaviour/Private/SmbSubsystem.cpp:300-311 | fails without a resource fragment; otherwise Deposit on the entity's carried amounts, nothing else changes |
| SmbSubsystem.Subsystem.RemoveFromEntity | Plugins/ScalableMassBehaviour/Source/ScalableMassBehaviour/Private/SmbSubsystem.cpp:313-322 | fails and changes nothing without a fragment, an entry, or enough; otherwise Withdraw |
| SmbSubsystem.Subsystem.GetEntityResources | Plugins/ScalableMassBehaviour/Source/ScalableMassBehaviour/Private/SmbSubsystem.cpp:324-338 | 1 when the closest resource entity is not live, else 1 plus the sum of what it carries |
| SmbSubsystem.Subsystem.GetEntityLocation | Plugins/ScalableMassBehaviour/Source/ScalableMassBehaviour/Private/SmbSubsystem.cpp:340-344 | a live handle gets its location; any other handle, the null handle included, gets the stand-in for the default vector |
| SmbSubsystem.Subsystem.GetEntityDataLocation | Plugins/ScalableMassBehaviour/Source/ScalableMassBehaviour/Private/SmbSubsystem.cpp:346-351 | the handle the data names gets its location when live and the stand-in for the default vector otherwise; the "no entity" data is never live |
| SmbSubsystem.Subsystem.GetClosestEnemy | Plugins/ScalableMassBehaviour/Source/ScalableMassBehaviour/Private/SmbSubsystem.cpp:451-481 | over the handles GetAround returns for cell radius 1 + trunc(radius / CellSize): the sentinel exactly when none is a live, placed enemy with HP > 0; otherwise the data of the first closest such enemy |
| SmbSubsystem.Subsystem.GetNumberClosestEntities | Plugins/ScalableMassBehaviour/Source/ScalableMassBehaviour/Private/SmbSubsystem.cpp:353-396 | min(Amount, #candidates) handles, each live, placed, within the radius and not of Team (teamless counts as -2), in non-decreasing distance, with no closer candidate left out |
| SmbSubsystem.Subsystem.SelectEntitiesInside | Plugins/ScalableMassBehaviour/Source/ScalableMassBehaviour/Private/SmbSubsystem.cpp:758-797 | exactly Selected over the handles of the selection window |
| SmbSubsystem.Subsystem.DealDamageToEnemy | Plugins/ScalableMassBehaviour/Source/ScalableMassBehaviour/Private/SmbSubsystem.cpp:488-510 | false and no change for the sentinel, a dead handle or no defence; otherwise HP := max(0, HP - d * multiplier) and true |
| SmbSubsystem.Subsystem.DealDamageAoe | Plugins/ScalableMassBehaviour/Source/ScalableMassBehaviour/Private/SmbSubsystem.cpp:559-601 | the directory, kills and signals are those of Aoe over GetAround(cell of the centre, trunc(radius)); the signalled handles are exactly the candidates that were targets, the kills are the signalled handles at HP 0; true exactly when something was signalled |
| SmbSubsystem.Subsystem.DamageSelectedEntities | Plugins/ScalableMassBehaviour/Source/ScalableMassBehaviour/Private/SmbSubsystem.cpp:820-845 | the directory and kills of DamageSelected; the handles hit are exactly those of the selected entries that were targets, the kills are those at HP 0; the signal sent after each hit carries every handle hit so far |
| SmbSubsystem.Subsystem.RegisterToGrid | Plugins/ScalableMassBehaviour/Source/ScalableMassBehaviour/Private/SmbSubsystem.cpp:512-520 | DownVector and no grid change for a dead handle; otherwise the relocation between the two cells and NewLocation returned |
| SmbSubsystem.Subsystem.DestroyEntity | Plugins/ScalableMassBehaviour/Source/ScalableMassBehaviour/Private/SmbSubsystem.cpp:643-650 | a live entity leaves the cell of its OldLocation and the directory; any other handle is ignored |
| SmbSubsystem.Subsystem.DestroyDelayed | Plugins/ScalableMassBehaviour/Source/ScalableMassBehaviour/Private/SmbSubsystem.cpp:657-662 | the countdown becomes Scheduled(old, h, delay) |
| SmbSubsystem.Subsystem.DestroyStalledEntity | Plugins/ScalableMassBehaviour/Source/ScalableMassBehaviour/Private/SmbSubsystem.cpp:664-675 | every countdown entry is lowered by DeltaTime and none is removed; exactly the expired live entities leave the directory and their cells |
| SmbSubsystem.Subsystem.CountDownEntry | Plugins/ScalableMassBehaviour/Source/ScalableMassBehaviour/Private/SmbSubsystem.cpp:667-674 | one entry is lowered and, when expired, destroyed; the loop invariant is kept |
| SmbSubsystem.Subsystem.SpawnAbilityDataDeferred | Plugins/ScalableMassBehaviour/Source/ScalableMassBehaviour/Private/SmbSubsystem.cpp:871-874 | the effect is appended to the ability queue |
| SmbSubsystem.Subsystem.FireDueAbilities | Plugins/ScalableMassBehaviour/Source/ScalableMassBehaviour/Private/SmbSubsystem.cpp:175-197 | the queue afterwards holds exactly Pending and the fired list exactly Fired, as multisets |
| SmbSubsystem.Subsystem.Tick | Plugins/ScalableMassBehaviour/Source/ScalableMassBehaviour/Private/SmbSubsystem.cpp:169-198 | DestroyStalledEntity, then the ability queue: the entries still waiting stay queued and the due ones are returned as fired (Pending, Fired) |
| SmbSubsystem.Subsystem.RegisterProjectileManager | Plugins/ScalableMassBehaviour/Source/ScalableMassBehaviour/Private/SmbSubsystem.cpp:427-434 | refused for a null handler or one already registered; otherwise the handler is appended and its index returned, so no handler is registered twice |
| SmbTasks.CheckRequirements | Plugins/ScalableMassBehaviour/Source/ScalableMassBehaviour/Private/SmbTasksAndConditions.cpp:340-347 | fails exactly when some required kind is carried in less than its amount |
| SmbTasks.MoreCarriedStillMeets | Plugins/ScalableMassBehaviour/Source/ScalableMassBehaviour/Private/SmbTasksAndConditions.cpp:343-347 | carrying more of every kind never makes a met requirement fail |
| SmbTasks.PickupGathers | Plugins/ScalableMassBehaviour/Source/ScalableMassBehaviour/Private/SmbTasksAndConditions.cpp:351-363 | the bonus is kept or set to 1.0, the carried amount grows by the bonus truncated to int32, nothing else changes |
| SmbTasks.DropEnds | Plugins/ScalableMassBehaviour/Source/ScalableMassBehaviour/Private/SmbTasksAndConditions.cpp:372-381 | before the walk over the carried kinds nothing has moved; after every kind is visited the dropper holds Emptied(carrying) |
| SmbTasks.DropConserves | Plugins/ScalableMassBehaviour/Source/ScalableMassBehaviour/Private/SmbTasksAndConditions.cpp:374-380 | for each kind, what the dropper keeps plus what the target holds afterwards equals what both held before; every kind but Storage drops to 0 and Storage is kept |
| SmbTasks.DropCarried | Plugins/ScalableMassBehaviour/Source/ScalableMassBehaviour/Private/SmbTasksAndConditions.cpp:372-381 | the walk over the dropper's own fragment in the directory: with a distinct target, the dropper ends with every kind but Storage at 0 and the target holds those amounts on top of its own (or refuses them without a resource fragment), nothing else changes; with the dropper as target the directory is unchanged |
| SmbTasks.SelfDropStep | Plugins/ScalableMassBehaviour/Source/ScalableMassBehaviour/Private/SmbTasksAndConditions.cpp:378-380 | on the dropper itself, zeroing one kind and depositing its amount back with AddToEntity restores the directory |
| SmbTasks.OtherDropStep | Plugins/ScalableMassBehaviour/Source/ScalableMassBehaviour/Private/SmbTasksAndConditions.cpp:378-380 | with a distinct target, one kind's amount, read before it is zeroed, moves from the dropper to the target, advancing the drop by that kind |
| SmbTasks.HandOverKind | Plugins/ScalableMassBehaviour/Source/ScalableMassBehaviour/Private/SmbTasksAndConditions.cpp:376-380 | one kind is handed over: Storage is skipped; any other kind is read, zeroed in the dropper's fragment and added to the target with AddToEntity; the drop invariant is kept |
| SmbTasks.Gather | Plugins/ScalableMassBehaviour/Source/ScalableMassBehaviour/Private/SmbTasksAndConditions.cpp:353-361 | the resulting fragment is PickedUp: bonus 1.0 stored when missing, the carried amount raised by the bonus truncated to int32 |
| SmbTasks.DropToClosest | Plugins/ScalableMassBehaviour/Source/ScalableMassBehaviour/Private/SmbTasksAndConditions.cpp:367-385 | Failed with nothing moved when the closest registered entity of the kind is not live; Succeeded otherwise, with the directory unchanged when that entity is the dropper and the full drop otherwise |
| SmbTasks.ProcessDue | Plugins/ScalableMassBehaviour/Source/ScalableMassBehaviour/Private/SmbTasksAndConditions.cpp:335-386 | the timer in the entity's own fragment resets to 0; Process fails iff a requirement is unmet and otherwise keeps running; Pickup succeeds with the gathered fragment; Drop as DropToClosest |
| SmbTasks.ProcessResourceTick | Plugins/ScalableMassBehaviour/Source/ScalableMassBehaviour/Private/SmbTasksAndConditions.cpp:323-390 | works on the executing entity's own fragment in the directory: Running with only the timer advanced until due; then as ProcessDue, with the timer reset; a drop onto the entity itself succeeds with its amounts unchanged; Drop fails with Carrying unchanged when the target is not live |
| SmbTasks.CloseEnoughMeansDistance | Plugins/ScalableMassBehaviour/Source/ScalableMassBehaviour/Private/SmbTasksAndConditions.cpp:219-230 | the condition is (distance < AcceptableDistance) XOR bInvertResult, to WalkToLocation (setting Idle) or to InLocation |
| SmbTasks.FindClosestEnemyEnter | Plugins/ScalableMassBehaviour/Source/ScalableMassBehaviour/Private/SmbTasksAndConditions.cpp:417-445 | bFoundEntityTarget is false exactly when GetClosestEnemy returns the sentinel, which is exactly when no enemy candidate is around; otherwise the target is the first closest enemy |
| SmbProcessors.TraceReadEffects | Plugins/ScalableMassBehaviour/Source/ScalableMassBehaviour/Private/SmbProcessors.cpp:230-255 | a pending or unwanted trace changes nothing; otherwise TraceDistMulti stays in [0.22, 4.0], the entity is signalled exactly for an impact far from the ground, and the timer rules hold |
| SmbProcessors.RegisterEffects | Plugins/ScalableMassBehaviour/Source/ScalableMassBehaviour/Private/SmbProcessors.cpp:230-303 | signal rules, TraceDistMulti in range, due exactly when the timer reaches BaseRefresh, the streak rules, streak >= 2 forces Idle and WalkToLocation := location, OldLocation set |
| SmbProcessors.SecondStallStops | Plugins/ScalableMassBehaviour/Source/ScalableMassBehaviour/Private/SmbProcessors.cpp:273-292 | a moving entity with a streak of 1 that moves little on its next refresh is stopped: Idle, walking to where it stands |
| SmbProcessors.ReadTrace | Plugins/ScalableMassBehaviour/Source/ScalableMassBehaviour/Private/SmbProcessors.cpp:230-255 | the trace step computes TraceRead field by field |
| SmbProcessors.CheckStall | Plugins/ScalableMassBehaviour/Source/ScalableMassBehaviour/Private/SmbProcessors.cpp:273-292 | the not-moved step computes Stalled and keeps OldLocation |
| SmbProcessors.Refresh | Plugins/ScalableMassBehaviour/Source/ScalableMassBehaviour/Private/SmbProcessors.cpp:267-296 | the refresh step computes Refreshed and keeps OldLocation |
| SmbProcessors.RefreshDue | Plugins/ScalableMassBehaviour/Source/ScalableMassBehaviour/Private/SmbProcessors.cpp:260-303 | a due refresh computes Refreshing and moves the entity in the grid |
| SmbProcessors.RegisterEntity | Plugins/ScalableMassBehaviour/Source/ScalableMassBehaviour/Private/SmbProcessors.cpp:224-303 | one entity's data, animation, signal and due flag are Registered, and the grid is Regridded |
| SmbProcessors.MoveSignalsMembers | Plugins/ScalableMassBehaviour/Source/ScalableMassBehaviour/Private/SmbProcessors.cpp:305-309 | an entity is in the MoveTargetChanged list exactly when its trace reported a far-away impact |
| SmbProcessors.RegisterChunk | Plugins/ScalableMassBehaviour/Source/ScalableMassBehaviour/Private/SmbProcessors.cpp:206-311 | every entity is Registered with DeltaTime capped at 0.2; the signal list is MoveSignals and is sent exactly when non-empty; the grid is RegriddedAll |
| SmbProcessors.TakeAim | Plugins/ScalableMassBehaviour/Source/ScalableMassBehaviour/Private/SmbProcessors.cpp:716-749 | a live target keeps its handle; otherwise closest[0] becomes the target, found exactly when it is live; only target fields change |
| SmbProcessors.AttackEffects | Plugins/ScalableMassBehaviour/Source/ScalableMassBehaviour/Private/SmbProcessors.cpp:699-865 | not attacking only resets TimeInAttack; signal exactly when an attack ends, with its state reset; a hit only after TimeUntilHit and only when TimesHit < 1; the skill decides the damage call and the queued effect; the animation becomes Idle exactly when a recovery finishes and is left unchanged on every other path |
| SmbProcessors.OneHitPerCycle | Plugins/ScalableMassBehaviour/Source/ScalableMassBehaviour/Private/SmbProcessors.cpp:773-775 | after a hit that keeps the attack going, the next step of that attack does not hit again |
| SmbProcessors.RetargetInReach | Plugins/ScalableMassBehaviour/Source/ScalableMassBehaviour/Private/SmbProcessors.cpp:733-757 | when the first close enemy is retargeted, the attack range is positive and GetSafeNormal returns a vector of length at most 1, the new target is within reach |
| SmbProcessors.AimAt | Plugins/ScalableMassBehaviour/Source/ScalableMassBehaviour/Private/SmbProcessors.cpp:716-749 | finding the target through the subsystem computes TakeAim |
| SmbProcessors.Hit | Plugins/ScalableMassBehaviour/Source/ScalableMassBehaviour/Private/SmbProcessors.cpp:776-855 | the damage call of HitCall; Struck on the directory; the effect queued at the target location exactly when a skill was found |
| SmbProcessors.AttackEntity | Plugins/ScalableMassBehaviour/Source/ScalableMassBehaviour/Private/SmbProcessors.cpp:699-865 | attack state, animation and signal are those of Attack; the directory is Struck by its damage call; an effect queued exactly when it spawns |
| SmbProcessors.StruckOnlyHp | Plugins/ScalableMassBehaviour/Source/ScalableMassBehaviour/Private/SmbProcessors.cpp:807-825 | the area and single-target melee hits change only HP |
| SmbProcessors.TakeAimIgnoresHp | Plugins/ScalableMassBehaviour/Source/ScalableMassBehaviour/Private/SmbProcessors.cpp:716-749 | targeting does not depend on HP |
| SmbProcessors.HitCallIgnoresHp | Plugins/ScalableMassBehaviour/Source/ScalableMassBehaviour/Private/SmbProcessors.cpp:776-855 | the damage call does not depend on HP |
| SmbProcessors.AttackIgnoresHp | Plugins/ScalableMassBehaviour/Source/ScalableMassBehaviour/Private/SmbProcessors.cpp:699-865 | the attack step does not depend on HP, so hits earlier in a chunk cannot change later entities' decisions |
| SmbProcessors.StruckAllOnlyHp | Plugins/ScalableMassBehaviour/Source/ScalableMassBehaviour/Private/SmbProcessors.cpp:698-865 | a chunk of attacks changes only HP |
| SmbProcessors.AttackSignalsMembers | Plugins/ScalableMassBehaviour/Source/ScalableMassBehaviour/Private/SmbProcessors.cpp:698-869 | an entity is in the AttackFinished list exactly when its attack ended in this frame |
| SmbProcessors.AttackChunk | Plugins/ScalableMassBehaviour/Source/ScalableMassBehaviour/Private/SmbProcessors.cpp:682-871 | every entity takes its Attack step with DeltaTime capped at 0.1; the signal list is sent exactly when non-empty; the directory and ability queue are those of the folds |

## Left out

- Rendering, animation, VFX and sound are not modelled: the animation, height, client-move and scale processors, the physics and Niagara actors, and the sound and VFX spawned when a deferred ability effect fires. A fired effect is returned to the caller instead.
- Navigation and traces: the asynchronous line trace is not modelled. `AsyncLineTraceByChannel` and `QueryTraceData` become the `trace` input of a register step. Mapping the engine's trace state onto that input is a choice of the model: `Pending` stands for an invalid trace handle (no trace issued), `Missed` for an issued trace whose data holds no hit, including a `QueryTraceData` that fails and leaves the hit list empty, and `Impact(z)` for a first hit at height `z`. `MoveEntities` and the navigation projection are not modelled.
- Random draws are parameters: `FRandRange` and `rand()` in the `GetValidated` timers and the refresh timer of the register processor (`draw`).
- Vector normalisation and square roots are parameters. `GetSafeNormal` is the `safeNormal` parameter of the attack step. `RetargetInReach` requires only that it returns a vector of length at most 1. The distance an entity moved is the `moved` value, constrained by `moved * moved == DistSq(...)`.
- Projectiles are not modelled. The ranged skill's `AddProjectile` call, `UProjectileProcessor` and `SmbProjectileHandler` are left out, so a ranged hit changes no modelled state besides the queued ability effect.
- The oriented-box test of `SelectEntitiesInside`, which uses the yaw through `FOrientedBox2d`, is the predicate parameter `inBox`.
- Gameplay tags are reduced to the `SkillKind` enum. The processor tests Melee on the "Skill" tag container and the other kinds on the "Skill.Type" container; an ability carrying several type tags is modelled by the first kind that test order finds (Melee, Ranged, Cast, Gather).
- Signals: the signal subsystem is modelled as the list of handles a processor or damage call would signal, plus a `sent` flag. Signal delays and delivery are not modelled.
- Concurrency: every entity chunk is processed sequentially, and each chunk call of a processor is modelled on its own.
- Deferred destruction: `Defer().DestroyEntity` removes the entity from the directory immediately.
- Integer widths: resource amounts and counters are unbounded. int32 wrap-around is not modelled.
- Floating point: rounding is not modelled. A division of the ground threshold by a zero `TraceDistMulti` counts as an infinite threshold, so the entity is not signalled.
- Header drift: `SmbSubsystem.h` declares `ToDestroy` as an array and `DestroyStalledEntity` without a parameter, but the implementation uses a map and a DeltaTime parameter; the model follows the implementation. The attack fields of `FAbilityDataFragment` that the ability processor uses (IsAttacking, TimeInAttack, TimesHit, TargetEntity, TargetLocation, CurrentAbility) are absent from the header, so they are modelled from their use in `UAbilityProcessor::Execute`.
- The Storage bucket: `GetTotalStored` and `LowerResource` index `RegisteredResources[Storage]` without a presence check. Its presence is a precondition (`StorageIndexable`) instead of a modelled assertion failure.
- Unchecked reads are preconditions. `GetEntityResources`, `DestroyEntity` and the ability processor read some fragments without a null check. `FProcessResource::Tick` indexes `Carrying[Type]` with the asserting `TMap` operator. The tick also requires the executing entity to be live with a resource fragment and a transform, which the state tree declares as the task's required external data. The model requires those fragments and keys to be present (`ReqReadable`, `CanAim`).
- `FVertexAnimations::GetValidated` returns its input unchanged and is not modelled. Entity template loading, spawning, `RegisterPhysicsManager`, `NewDeath`, `GetEntitiesLocationsAndHealth` and `DetatchActorSetHealth` are engine or presentation calls and are not modelled.
- GetEntityLocation: for a handle that is not live the source returns a default-constructed `FVector`, whose components the engine leaves uninitialised. The model returns the zero vector instead, which is a choice of the model, not a value the source guarantees.
- GetEntityDataLocation: the same stand-in. The zero vector returned for data naming no live entity, the "no entity" sentinel included, replaces the source's uninitialised `FVector`.
- SmbLedger.LoweredCost: the per-kind payment is proved only for costs and carried amounts that are not negative and for depots listed once. The source does not check either condition.
