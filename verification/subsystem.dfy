/**
 * USmbSubsystem: the world subsystem that owns the spatial grid, the
 * resource registry, the destruction countdown, the deferred ability
 * effects and the projectile-handler registry, and that answers the
 * gameplay queries over the Mass entities.
 *
 * The entity manager is the `entities` directory; the grid is a `Grid`
 * object the subsystem creates and keeps. Each method is specified by the
 * functions of the modules it draws on (`Around`, `Totals`, `Lowered`,
 * `Aoe`, `Pending`, ...), whose properties are proved there.
 */
module SmbSubsystem {
  import opened SmbCommon
  import opened SmbFragments
  import opened SmbGrid
  import opened SmbEntities
  import opened SmbQueries
  import opened SmbDamage
  import opened SmbLedger
  import opened SmbQueues
  import opened SmbAbility

  /** FProcessableArr: the locations and handles of the registered resources of one kind, kept in parallel. */
  datatype ProcessableArr = ProcessableArr(locations: seq<Vec3>, handles: seq<Handle>)

  /** FProcessableReqArr: a list of required kinds and, in parallel, their amounts. */
  datatype ProcessableReqArr = ProcessableReqArr(typeArr: seq<EProcessable>, amountArr: seq<int>)
  {
    /** EmptyArr: both parallel lists emptied. */
    function EmptyArr(): (r: ProcessableReqArr)
      ensures r.typeArr == [] && r.amountArr == []
    {
      ProcessableReqArr([], [])
    }
  }

  /** FResourceReqMap: the requirement lists of each kind. */
  class ResourceReqMap {
    var reqMap: map<EProcessable, ProcessableReqArr>

    constructor ()
      ensures reqMap == map[]
    {
      reqMap := map[];
    }

    /** EmptyMap: every list is emptied, then the map itself. */
    method EmptyMap()
      modifies this
      ensures reqMap == map[]
    {
      var i := 0;
      while i < |AllKinds|
        invariant 0 <= i <= |AllKinds|
        invariant reqMap.Keys == old(reqMap.Keys)
        invariant forall k :: k in AllKinds[..i] && k in reqMap ==> reqMap[k] == ProcessableReqArr([], [])
      {
        var k := AllKinds[i];
        assert AllKinds[..i + 1] == AllKinds[..i] + [k];
        if k in reqMap {
          reqMap := reqMap[k := reqMap[k].EmptyArr()];
        }
        i := i + 1;
      }
      AllKindsListsEveryKind();
      assert AllKinds[..i] == AllKinds;
      assert AllListsEmpty(reqMap);
      reqMap := map[];
    }
  }

  /** Every requirement list in the map is empty: what EmptyMap's first loop leaves. */
  predicate AllListsEmpty(m: map<EProcessable, ProcessableReqArr>)
  {
    forall k :: k in m ==> m[k].typeArr == [] && m[k].amountArr == []
  }

  /** The cell DestroyEntity removes an entity from: the cell of its last registered location. */
  function CellOf(e: Entity): (int, int)
    requires e.locationData.Some?
  {
    VectorToCell(e.locationData.value.oldLocation)
  }

  /** The handles of D that are live and whose last registered location is in cell (x, y). */
  function DestroyedAt(ents: Directory, D: set<Handle>, x: int, y: int): (r: set<Handle>)
    ensures forall h :: h in r <==> h in D && h in ents && ents[h].locationData.Some? && CellOf(ents[h]) == (x, y)
  {
    set h | h in D && h in ents && ents[h].locationData.Some? && CellOf(ents[h]) == (x, y)
  }

  /**
   * The grid `cells` is `cells0` with the handles of D that were live in
   * `ents0` removed, each from the cell of its last registered location.
   */
  ghost predicate GridWithout(cells: Cells, cells0: Cells, ents0: Directory, D: set<Handle>)
  {
    forall x, y :: At(cells, x, y) == WithoutAll(At(cells0, x, y), DestroyedAt(ents0, D, x, y))
  }

  /** Destroying one more handle extends the destroyed set by it. */
  lemma DirectoryMinusStep(ents0: Directory, D: set<Handle>, h: Handle)
    ensures (ents0 - D) - {h} == ents0 - (D + {h})
  {
  }

  /** Removing no handles leaves the grid as it is. */
  lemma NothingRemoved(cells0: Cells, ents0: Directory)
    ensures GridWithout(cells0, cells0, ents0, {})
  {
    forall x, y
      ensures At(cells0, x, y) == WithoutAll(At(cells0, x, y), DestroyedAt(ents0, {}, x, y))
    {
      assert DestroyedAt(ents0, {}, x, y) == {};
      WithoutNothing(At(cells0, x, y));
    }
  }

  /**
   * One step of DestroyStalledEntity's walk, for the grid: destroying h,
   * when it is live, removes it from the cell of its last registered
   * location, which adds it to the handles removed from that cell.
   */
  lemma DestroyStep(cells0: Cells, ents0: Directory, D: set<Handle>, h: Handle, before: Cells, after: Cells)
    requires GridWithout(before, cells0, ents0, D)
    requires h in ents0 ==>
               ents0[h].locationData.Some? &&
               after == Removed(before, CellOf(ents0[h]).0, CellOf(ents0[h]).1, h)
    requires h !in ents0 ==> after == before
    ensures GridWithout(after, cells0, ents0, D + {h})
  {
    forall x, y
      ensures At(after, x, y) == WithoutAll(At(cells0, x, y), DestroyedAt(ents0, D + {h}, x, y))
    {
      var removed := DestroyedAt(ents0, D, x, y);
      if h in ents0 && CellOf(ents0[h]) == (x, y) {
        assert DestroyedAt(ents0, D + {h}, x, y) == removed + {h};
        WithoutAllStep(At(cells0, x, y), removed, h);
      } else {
        assert DestroyedAt(ents0, D + {h}, x, y) == removed;
      }
    }
  }

  /** One storage entity's carried amounts added into the totals, kind by kind. */
  method Credit(totals: Amounts, carrying: Amounts) returns (t: Amounts)
    ensures t == CreditKeys(totals, carrying, AllKinds)
  {
    t := totals;
    var j := 0;
    while j < |AllKinds|
      invariant 0 <= j <= |AllKinds|
      invariant t == CreditKeys(totals, carrying, AllKinds[..j])
    {
      assert AllKinds[..j + 1][..j] == AllKinds[..j];
      var k := AllKinds[j];
      if k in carrying {
        if k !in t {
          t := t[k := 0];
        }
        if carrying[k] > 0 {
          t := t[k := t[k] + carrying[k]];
        }
      }
      j := j + 1;
    }
    assert AllKinds[..j] == AllKinds;
  }

  /**
   * LowerResource's first loop: fails at the first cost kind that the
   * totals do not report or do not cover. The source subtracts each cost
   * from its copy of the totals; every kind is visited once, so the test
   * is the same.
   */
  method CoversCost(totals: Amounts, cost: Amounts) returns (ok: bool)
    ensures ok == Affordable(totals, cost)
  {
    var j := 0;
    while j < |AllKinds|
      invariant 0 <= j <= |AllKinds|
      invariant forall k :: k in AllKinds[..j] && k in cost ==> k in totals && totals[k] - cost[k] >= 0
    {
      assert AllKinds[..j + 1] == AllKinds[..j] + [AllKinds[j]];
      var k := AllKinds[j];
      if k in cost {
        if k !in totals || totals[k] - cost[k] < 0 {
          return false;
        }
      }
      j := j + 1;
    }
    AllKindsListsEveryKind();
    assert AllKinds[..j] == AllKinds;
    ok := true;
  }

  /** One handle of DealDamageAoe's loop: hit when it is a target in reach, else skipped. */
  method HitIfInReach(ents: Directory, damage: real, signaled: seq<Handle>, killed: int,
                      u: Handle, p: Vec3, radius: real, dtype: EDamageType, ownTeam: int)
    returns (ents': Directory, damage': real, signaled': seq<Handle>, killed': int)
    ensures AoeState(ents', damage', signaled', killed') ==
            AoeHit(AoeState(ents, damage, signaled, killed), u, p, radius, dtype, ownTeam)
  {
    ents', damage', signaled', killed' := ents, damage, signaled, killed;
    if IsAoeTarget(ents, u, p, radius, ownTeam) {
      var e := ents[u];
      signaled' := signaled + [u];
      damage' := damage * Multiplier(dtype, e.defence.value.unitArmor);
      var hp := e.defence.value.hp - damage';
      if hp <= 0.0 {
        hp := 0.0;
        killed' := killed + 1;
      }
      ents' := ents[u := WithHp(e, hp)];
    }
  }

  /**
   * DealDamageAoe's loop over the handles around the position. The damage
   * amount is a loop variable, so a doubling for one target carries over
   * to every later one.
   */
  method HitInReach(ents0: Directory, amount: real, killedIn: int, units: seq<Handle>,
                    p: Vec3, radius: real, dtype: EDamageType, ownTeam: int)
    returns (s: AoeState)
    ensures s == Aoe(AoeState(ents0, amount, [], killedIn), units, p, radius, dtype, ownTeam)
  {
    var ents, damage, signaled, killed := ents0, amount, [], killedIn;
    var i := 0;
    while i < |units|
      invariant 0 <= i <= |units|
      invariant AoeState(ents, damage, signaled, killed) ==
                Aoe(AoeState(ents0, amount, [], killedIn), units[..i], p, radius, dtype, ownTeam)
    {
      AoeLast(AoeState(ents0, amount, [], killedIn), units, i, p, radius, dtype, ownTeam);
      ents, damage, signaled, killed := HitIfInReach(ents, damage, signaled, killed, units[i], p, radius, dtype, ownTeam);
      i := i + 1;
    }
    assert units[..i] == units;
    s := AoeState(ents, damage, signaled, killed);
  }

  /**
   * DamageSelectedEntities's loop. The signal is sent inside the loop, so
   * after the k-th hit the k handles hit so far are signalled again;
   * `batches` lists those signals in order.
   */
  method HitSelected(ents0: Directory, killedIn: int, selected: seq<EntityData>, damage: real, ownTeam: int)
    returns (s: SelState, batches: seq<seq<Handle>>)
    ensures s == DamageSelected(SelState(ents0, [], killedIn), selected, damage, ownTeam)
    ensures |batches| == |s.signaled| && forall k :: 0 <= k < |batches| ==> batches[k] == s.signaled[..k + 1]
  {
    var ents, signaled, killed := ents0, [], killedIn;
    batches := [];
    var i := 0;
    while i < |selected|
      invariant 0 <= i <= |selected|
      invariant SelState(ents, signaled, killed) ==
                DamageSelected(SelState(ents0, [], killedIn), selected[..i], damage, ownTeam)
      invariant |batches| == |signaled| && forall k :: 0 <= k < |batches| ==> batches[k] == signaled[..k + 1]
    {
      assert selected[..i + 1][..i] == selected[..i];
      var u := ToHandle(selected[i]);
      i := i + 1;
      if !IsSelectedTarget(ents, u, ownTeam) {
        continue;
      }
      var e := ents[u];
      signaled := signaled + [u];
      var hp := e.defence.value.hp - damage;
      if hp <= 0.0 {
        hp := 0.0;
        killed := killed + 1;
      }
      ents := ents[u := WithHp(e, hp)];
      // The source returns here when nothing is signalled, which cannot
      // happen right after a handle was added.
      batches := batches + [signaled];
    }
    assert selected[..i] == selected;
    s := SelState(ents, signaled, killed);
  }

  /** GetClosestEnemy's loop: the position of the first closest enemy, or -1. */
  method ScanForClosestEnemy(ents: Directory, units: seq<Handle>, p: Vec3, teamId: int) returns (best: int)
    ensures best == ClosestEnemyIndex(ents, units, p, teamId)
  {
    best := -1;
    var i := 0;
    while i < |units|
      invariant 0 <= i <= |units|
      invariant best == ClosestEnemyIndex(ents, units[..i], p, teamId)
    {
      ClosestEnemyStep(ents, units, p, teamId, i, best);
      var u := units[i];
      if IsEnemyCandidate(ents, u, teamId) &&
         (best == -1 || DistSq(p, LocationOf(ents, u)) < DistSq(p, LocationOf(ents, units[best])))
      {
        best := i;
      }
      i := i + 1;
    }
    assert units[..i] == units;
  }

  /** GetEntityResources's loop: every carried amount added to the running total. */
  method AddCarried(total: int, carrying: Amounts) returns (t: int)
    ensures t == total + SumCarried(carrying)
  {
    t := total;
    var j := 0;
    while j < |AllKinds|
      invariant 0 <= j <= |AllKinds|
      invariant t == total + SumKeys(carrying, AllKinds[..j])
    {
      assert AllKinds[..j + 1][..j] == AllKinds[..j];
      t := t + Get(carrying, AllKinds[j]);
      j := j + 1;
    }
    assert AllKinds[..j] == AllKinds;
  }

  /**
   * LowerResource's inner loop over one storage entity: each carried kind
   * still owed loses the lesser of the two amounts, as does the cost.
   */
  method Settle(carrying: Amounts, owed: Amounts) returns (c: Amounts, remaining: Amounts)
    ensures (c, remaining) == SettleKeys(carrying, owed, AllKinds)
  {
    c, remaining := carrying, owed;
    var n := 0;
    while n < |AllKinds|
      invariant 0 <= n <= |AllKinds|
      invariant (c, remaining) == SettleKeys(carrying, owed, AllKinds[..n])
    {
      assert AllKinds[..n + 1][..n] == AllKinds[..n];
      var k := AllKinds[n];
      if k in c && k in remaining {
        var lower := IMin(c[k], remaining[k]);
        c := c[k := c[k] - lower];
        remaining := remaining[k := remaining[k] - lower];
      }
      n := n + 1;
    }
    assert AllKinds[..n] == AllKinds;
  }

  /**
   * The sort of GetNumberClosestEntities's distance list: ascending by
   * distance. The engine's sort is not stable, so only the order of the
   * keys and the multiset of pairs are promised.
   */
  method SortByKey(pairs: seq<(real, Handle)>) returns (sorted: seq<(real, Handle)>)
    ensures SortedByKey(sorted) && multiset(sorted) == multiset(pairs)
  {
    sorted := [];
    var i := 0;
    while i < |pairs|
      invariant 0 <= i <= |pairs|
      invariant SortedByKey(sorted) && multiset(sorted) == multiset(pairs[..i])
    {
      assert pairs[..i + 1] == pairs[..i] + [pairs[i]];
      InsertByKeySorts(sorted, pairs[i]);
      sorted := InsertByKey(sorted, pairs[i]);
      i := i + 1;
    }
    assert pairs[..i] == pairs;
  }

  class Subsystem {
    /** The Mass entity manager: the live entities and their fragments. */
    var entities: Directory
    /** Grid: the spatial index of entity handles. */
    const grid: Grid
    /** RegisteredResources. */
    var registeredResources: map<EProcessable, ProcessableArr>
    /** ToDestroy: the pending destruction delay of each handle. */
    var toDestroy: Countdown
    /** AbilitySpawningDataArray: the deferred ability effects. */
    var abilitySpawning: seq<SpawningData>
    /** ProjectileHandlerArray: the registered projectile handlers, by identity. */
    var projectileHandlers: seq<int>
    /** ReqMap. */
    const reqMap: ResourceReqMap

    /**
     * The invariant the subsystem keeps: live entities have positive
     * indices, each resource kind keeps its locations and handles in
     * parallel, and no projectile handler is registered twice.
     */
    predicate Valid()
      reads this
    {
      LiveIndices(entities) &&
      (forall k :: k in registeredResources ==>
         |registeredResources[k].locations| == |registeredResources[k].handles|) &&
      Distinct(projectileHandlers)
    }

    /** Initialize: an empty grid, registry, countdown and queue over the given entity manager. */
    constructor (ents: Directory)
      requires LiveIndices(ents)
      ensures Valid()
      ensures entities == ents && fresh(grid) && grid.xCells == map[]
      ensures registeredResources == map[] && toDestroy == map[]
      ensures abilitySpawning == [] && projectileHandlers == []
    {
      entities := ents;
      grid := new Grid();
      registeredResources := map[];
      toDestroy := map[];
      abilitySpawning := [];
      projectileHandlers := [];
      reqMap := new ResourceReqMap();
    }

    // ----- Resources -----

    /** GetResources: the registered locations of a kind, empty when none is registered. */
    function GetResources(kind: EProcessable): (r: seq<Vec3>)
      reads this
      requires Valid()
      ensures |r| == |ResourceHandles(kind)|
    {
      if kind in registeredResources then registeredResources[kind].locations else []
    }

    /** The registered handles of a kind, parallel to GetResources. */
    function ResourceHandles(kind: EProcessable): seq<Handle>
      reads this
    {
      if kind in registeredResources then registeredResources[kind].handles else []
    }

    /**
     * RegisterResource: appends the location and the handle to the kind's
     * lists, creating them on first use. `pendingCreation` says whether the
     * entity of the agent component is still being created; the call
     * reports success only when it is not.
     */
    method RegisterResource(location: Vec3, kind: EProcessable, handle: Handle, pendingCreation: bool)
      returns (ok: bool)
      requires Valid()
      modifies this`registeredResources
      ensures Valid()
      ensures ok == !pendingCreation
      ensures GetResources(kind) == old(GetResources(kind)) + [location]
      ensures ResourceHandles(kind) == old(ResourceHandles(kind)) + [handle]
      ensures registeredResources.Keys == old(registeredResources.Keys) + {kind}
      ensures forall k :: k in old(registeredResources) && k != kind ==>
                registeredResources[k] == old(registeredResources[k])
    {
      var arr := if kind in registeredResources then registeredResources[kind] else ProcessableArr([], []);
      registeredResources := registeredResources[kind := ProcessableArr(arr.locations + [location], arr.handles + [handle])];
      ok := !pendingCreation;
    }

    /**
     * The handle GetClosestResource returns: the default handle when the
     * kind has no registered location, otherwise the handle of the first
     * closest location.
     */
    function ClosestResource(kind: EProcessable, p: Vec3): (h: Handle)
      reads this
      requires Valid()
      ensures |GetResources(kind)| == 0 ==> h == NullHandle
      ensures |GetResources(kind)| > 0 ==>
                exists i :: FirstClosest(GetResources(kind), p, i) && h == ResourceHandles(kind)[i]
    {
      var locs := GetResources(kind);
      if |locs| == 0 then NullHandle
      else
        var i := FirstClosestIndex(locs, p);
        ResourceHandles(kind)[i]
    }

    /** GetClosestResource: a scan that keeps a location only when it is strictly closer than the best so far. */
    method GetClosestResource(kind: EProcessable, p: Vec3) returns (h: Handle)
      requires Valid()
      ensures h == ClosestResource(kind, p)
    {
      if kind !in registeredResources {
        return NullHandle;
      }
      var locs := registeredResources[kind].locations;
      if |locs| <= 0 {
        return NullHandle;
      }
      // The first location is always taken, so the scan starts from it.
      var best := 0;
      var i := 1;
      while i < |locs|
        invariant 1 <= i <= |locs|
        invariant best == FirstClosestIndex(locs[..i], p)
      {
        assert locs[..i + 1][..i] == locs[..i];
        if DistSq(p, locs[i]) < DistSq(p, locs[best]) {
          best := i;
        }
        i := i + 1;
      }
      assert locs[..i] == locs;
      h := registeredResources[kind].handles[best];
    }

    /** Whether GetTotalStored can index the Storage bucket: the registry is empty or has one. */
    predicate StorageIndexable()
      reads this
    {
      registeredResources == map[] || Storage in registeredResources
    }

    /** What GetTotalStored returns: the base kinds alone, or the totals over the storage handles. */
    function TotalStored(): (t: Amounts)
      reads this
      requires StorageIndexable()
      ensures forall k :: k in BaseTotals() ==> k in t
    {
      if registeredResources == map[] then BaseTotals()
      else
        var hs := registeredResources[Storage].handles;
        TotalsAt(entities, hs, Gold);
        TotalsAt(entities, hs, Wood);
        TotalsAt(entities, hs, Stone);
        TotalsAt(entities, hs, Food);
        Totals(entities, hs)
    }

    /**
     * GetTotalStored: starts from the base kinds at 0 and, for every live
     * storage entity with a resource fragment, adds each positive carried
     * amount, creating an entry for every carried kind.
     */
    method GetTotalStored() returns (totals: Amounts)
      requires StorageIndexable()
      ensures totals == TotalStored()
    {
      totals := BaseTotals();
      if registeredResources == map[] {
        return;
      }
      var hs := registeredResources[Storage].handles;
      var i := 0;
      while i < |hs|
        invariant 0 <= i <= |hs|
        invariant totals == Totals(entities, hs[..i])
      {
        assert hs[..i + 1][..i] == hs[..i];
        var h := hs[i];
        if h in entities && entities[h].resource.Some? {
          totals := Credit(totals, entities[h].resource.value.carrying);
        }
        i := i + 1;
      }
      assert hs[..i] == hs;
    }

    /** The storage handles LowerResource takes from. */
    function StorageHandles(): seq<Handle>
      reads this
    {
      if Storage in registeredResources then registeredResources[Storage].handles else []
    }

    /**
     * LowerResource: all or nothing. When every cost kind is reported by
     * GetTotalStored and covered by its total, the storage entities pay in
     * order, each giving the lesser of what it carries and what is still
     * owed; otherwise nothing changes. The Storage bucket must exist unless
     * the check already fails on an empty registry.
     */
    method LowerResource(cost: Amounts) returns (ok: bool)
      requires Storage in registeredResources || (registeredResources == map[] && !Affordable(BaseTotals(), cost))
      modifies this`entities
      ensures ok == Affordable(old(TotalStored()), cost)
      ensures ok ==> entities == Lowered(old(entities), old(StorageHandles()), cost).0
      ensures !ok ==> entities == old(entities)
    {
      var totals := GetTotalStored();
      ok := CoversCost(totals, cost);
      if !ok {
        return;
      }
      var hs := registeredResources[Storage].handles;
      var remaining := cost;
      var i := 0;
      while i < |hs|
        invariant 0 <= i <= |hs|
        invariant (entities, remaining) == Lowered(old(entities), hs[..i], cost)
      {
        assert hs[..i + 1][..i] == hs[..i];
        var h := hs[i];
        if h in entities && entities[h].resource.Some? {
          var carrying;
          carrying, remaining := Settle(entities[h].resource.value.carrying, remaining);
          entities := entities[h := WithCarrying(entities[h], carrying)];
        }
        i := i + 1;
      }
      assert hs[..i] == hs;
    }

    /**
     * AddToEntity: adds the amount to the kind the entity carries,
     * creating the entry at 0 first; fails only without a resource
     * fragment.
     */
    method AddToEntity(h: Handle, kind: EProcessable, amount: int) returns (ok: bool)
      requires h in entities
      modifies this`entities
      ensures ok == old(entities[h].resource.Some?)
      ensures ok ==> entities == old(entities[h := WithCarrying(entities[h],
                                   Deposit(entities[h].resource.value.carrying, kind, amount))])
      ensures !ok ==> entities == old(entities)
    {
      var e := entities[h];
      if e.resource.None? {
        return false;
      }
      var carrying := e.resource.value.carrying;
      if kind !in carrying {
        carrying := carrying[kind := 0];
      }
      carrying := carrying[kind := carrying[kind] + amount];
      assert carrying == Deposit(e.resource.value.carrying, kind, amount);
      entities := entities[h := WithCarrying(e, carrying)];
      ok := true;
    }

    /**
     * RemoveFromEntity: takes the amount from the kind the entity carries;
     * fails, changing nothing, without a resource fragment, without an
     * entry for the kind, or when the entry is smaller than the amount.
     */
    method RemoveFromEntity(h: Handle, kind: EProcessable, amount: int) returns (ok: bool)
      requires h in entities
      modifies this`entities
      ensures ok == old(entities[h].resource.Some? &&
                        Withdraw(entities[h].resource.value.carrying, kind, amount).Some?)
      ensures ok ==> entities == old(entities[h := WithCarrying(entities[h],
                                   Withdraw(entities[h].resource.value.carrying, kind, amount).value)])
      ensures !ok ==> entities == old(entities)
    {
      var e := entities[h];
      if e.resource.None? {
        return false;
      }
      var carrying := e.resource.value.carrying;
      if kind !in carrying || carrying[kind] < amount {
        return false;
      }
      carrying := carrying[kind := carrying[kind] - amount];
      entities := entities[h := WithCarrying(e, carrying)];
      ok := true;
    }

    /**
     * GetEntityResources: 1 plus everything the closest resource entity of
     * the kind carries, or 1 when there is no live closest entity. The
     * fragment is read unchecked, so a live closest entity must have one.
     */
    method GetEntityResources(kind: EProcessable, p: Vec3) returns (total: int)
      requires Valid()
      requires ClosestResource(kind, p) in entities ==> entities[ClosestResource(kind, p)].resource.Some?
      ensures total == if ClosestResource(kind, p) in entities
                       then 1 + SumCarried(entities[ClosestResource(kind, p)].resource.value.carrying)
                       else 1
    {
      var h := GetClosestResource(kind, p);
      if h !in entities {
        return 1;
      }
      var carrying := entities[h].resource.value.carrying;
      total := 1;
      if carrying == map[] {
        EmptySum(carrying, AllKinds);
        return 1;
      }
      total := AddCarried(total, carrying);
    }

    /**
     * GetEntityLocation: the location of a live entity. For any other
     * handle the source returns a default-constructed vector, whose
     * components it leaves uninitialised; the model fixes them at zero.
     */
    function GetEntityLocation(h: Handle): (r: Vec3)
      reads this
      requires h in entities ==> entities[h].location.Some?
      ensures h in entities ==> r == entities[h].location.value
      ensures h !in entities ==> r == ZeroVector
      ensures Valid() && h == NullHandle ==> r == ZeroVector
    {
      if h !in entities then ZeroVector else entities[h].location.value
    }

    /**
     * GetEntityDataLocation: GetEntityLocation of the handle the data
     * names; the "no entity" data is never live, so it gets the stand-in.
     */
    function GetEntityDataLocation(d: EntityData): (r: Vec3)
      reads this
      requires Valid()
      requires ToHandle(d) in entities ==> entities[ToHandle(d)].location.Some?
      ensures ToHandle(d) in entities ==> r == entities[ToHandle(d)].location.value
      ensures ToHandle(d) !in entities ==> r == ZeroVector
      ensures d == NoEntity ==> r == ZeroVector
    {
      SentinelsAreNotLive(entities);
      GetEntityLocation(Handle(d.index, d.serialNumber))
    }

    // ----- Queries -----

    /**
     * GetClosestEnemy: over the handles of the cells around the position,
     * the first candidate at the least distance (a later one replaces it
     * only when strictly closer), or the "no entity" sentinel when no
     * candidate is live, placed, on another team and alive.
     */
    method GetClosestEnemy(p: Vec3, teamId: int, radius: real) returns (d: EntityData)
      requires Valid()
      ensures var units := Around(grid.xCells, VectorToCell(p).0, VectorToCell(p).1, QueryCellRadius(radius));
              var i := ClosestEnemyIndex(entities, units, p, teamId);
              && (d == NoEntity <==> forall j :: 0 <= j < |units| ==> !IsEnemyCandidate(entities, units[j], teamId))
              && (d != NoEntity ==> d == FromHandle(units[i]) && ClosestEnemyAt(entities, units, p, teamId, i))
    {
      var cell := VectorToCell(p);
      var units := grid.GetAround(cell.0, cell.1, QueryCellRadius(radius));
      var best := ScanForClosestEnemy(entities, units, p, teamId);
      SentinelsAreNotLive(entities);
      d := if best == -1 then NoEntity else FromHandle(units[best]);
    }

    /**
     * GetNumberClosestEntities: the handles of the cells around the
     * position that are live, not of `team` (an entity without a team
     * counts as team -2), placed and within the radius, sorted by distance
     * and cut to at most `amount`. The result is the requested number of
     * closest candidates: any candidate left out is at least as far as the
     * last one returned, and when fewer than `amount` are returned every
     * candidate is among them.
     */
    method GetNumberClosestEntities(p: Vec3, radius: real, amount: int, team: int := -1) returns (r: seq<Handle>)
      ensures ClosestChoice(entities, Around(grid.xCells, VectorToCell(p).0, VectorToCell(p).1, QueryCellRadius(radius)),
                            p, radius, team, amount, r)
    {
      var cell := VectorToCell(p);
      var units := grid.GetAround(cell.0, cell.1, QueryCellRadius(radius));
      var pairs: seq<(real, Handle)> := [];
      var i := 0;
      while i < |units|
        invariant 0 <= i <= |units|
        invariant pairs == NearPairs(entities, units[..i], p, radius, team)
      {
        assert units[..i + 1][..i] == units[..i];
        var u := units[i];
        if u in entities {
          var otherTeam := TeamOrNone(entities[u]);
          if otherTeam != team && entities[u].location.Some? {
            var distance := DistSq(p, entities[u].location.value);
            if WithinDist(p, entities[u].location.value, radius) {
              pairs := pairs + [(distance, u)];
            }
          }
        }
        i := i + 1;
      }
      assert units[..i] == units;
      var sorted := SortByKey(pairs);
      var resultCount := IMin(amount, |sorted|);
      r := [];
      var k := 0;
      while k < resultCount
        invariant 0 <= k <= Max0(resultCount)
        invariant r == HandlesOf(sorted[..k])
      {
        assert sorted[..k + 1] == sorted[..k] + [sorted[k]];
        r := r + [sorted[k].1];
        k := k + 1;
      }
      ClosestPrefix(entities, units, p, radius, team, sorted, amount);
    }

    /**
     * SelectEntitiesInside: the handles of the selection window that are
     * live, of the requested team (any team for -1; an entity without a
     * team always passes), inside the selection box and not dead. The
     * oriented-box test, which depends on the yaw, is the parameter
     * `inBox`.
     */
    method SelectEntitiesInside(topLeft: Vec3, bottomRight: Vec3, inBox: Vec3 -> bool, team: int := -1)
      returns (r: seq<EntityData>)
      ensures var w := SelectionWindow(topLeft, bottomRight);
              r == Selected(entities, Around(grid.xCells, w.0, w.1, w.2), team, inBox)
    {
      var w := SelectionWindow(topLeft, bottomRight);
      var units := grid.GetAround(w.0, w.1, w.2);
      r := [];
      var i := 0;
      while i < |units|
        invariant 0 <= i <= |units|
        invariant r == Selected(entities, units[..i], team, inBox)
      {
        assert units[..i + 1][..i] == units[..i];
        var u := units[i];
        i := i + 1;
        if u !in entities {
          continue;
        }
        var e := entities[u];
        if e.team.Some? && e.team.value.teamID != team && team != -1 {
          continue;
        }
        if e.location.None? || !inBox(e.location.value) {
          continue;
        }
        if e.defence.Some? && e.defence.value.hp <= 0.0 {
          continue;
        }
        r := r + [FromHandle(u)];
      }
      assert units[..i] == units;
    }

    // ----- Damage -----

    /**
     * DealDamageToEnemy: fails, changing nothing, for the sentinel, a
     * handle that is not live, or an entity without a defence; otherwise
     * lowers the HP by the damage (doubled when the armour is weak to its
     * type), floored at 0.
     */
    method DealDamageToEnemy(target: EntityData, amount: real, dtype: EDamageType) returns (ok: bool)
      modifies this`entities
      ensures ok == (target != NoEntity && ToHandle(target) in old(entities) &&
                     old(entities)[ToHandle(target)].defence.Some?)
      ensures ok ==>
                var e := old(entities)[ToHandle(target)];
                entities == old(entities)[ToHandle(target) := WithHp(e,
                  AfterHit(e.defence.value.hp, amount * Multiplier(dtype, e.defence.value.unitArmor)))]
      ensures !ok ==> entities == old(entities)
    {
      if target.serialNumber == -1 && target.index == -1 {
        return false;
      }
      var h := Handle(target.index, target.serialNumber);
      if h !in entities || entities[h].defence.None? {
        return false;
      }
      var e := entities[h];
      var damage := amount * Multiplier(dtype, e.defence.value.unitArmor);
      var hp := e.defence.value.hp - damage;
      if hp <= 0.0 {
        hp := 0.0;
      }
      entities := entities[h := WithHp(e, hp)];
      ok := true;
    }

    /**
     * DealDamageAoe: walks the handles of the cells around the position,
     * using the radius itself as the cell radius, and hits every candidate
     * in reach, alive and on another team. The damage amount is the loop's
     * own variable, so a doubling for one target carries over to every
     * later one. Returns whether anything was hit, the kill counter
     * advanced by the targets brought to 0, and the handles sent the
     * damage signal.
     */
    method DealDamageAoe(p: Vec3, radius: real, amount: real, dtype: EDamageType, ownTeam: int, killedIn: int)
      returns (ok: bool, killed: int, signaled: seq<Handle>)
      modifies this`entities
      ensures var s := Aoe(AoeState(old(entities), amount, [], killedIn),
                           Around(grid.xCells, VectorToCell(p).0, VectorToCell(p).1, TruncToInt(radius)),
                           p, radius, dtype, ownTeam);
              entities == s.ents && killed == s.killed && signaled == s.signaled
      ensures ok == (signaled != [])
      ensures var units := Around(grid.xCells, VectorToCell(p).0, VectorToCell(p).1, TruncToInt(radius));
              && (forall h :: h in signaled ==> h in units && IsAoeTarget(old(entities), h, p, radius, ownTeam))
              && (forall h :: h in units && IsAoeTarget(old(entities), h, p, radius, ownTeam) ==> h in signaled)
              && killed == killedIn + |DeadAmong(entities, signaled)|
              && killedIn <= killed <= killedIn + |signaled|
    {
      var cell := VectorToCell(p);
      var units := grid.GetAround(cell.0, cell.1, TruncToInt(radius));
      AoeEffects(AoeState(entities, amount, [], killedIn), units, p, radius, dtype, ownTeam);
      var s := HitInReach(entities, amount, killedIn, units, p, radius, dtype, ownTeam);
      entities, killed, signaled := s.ents, s.killed, s.signaled;
      ok := |signaled| > 0;
    }

    /**
     * DamageSelectedEntities: hits every selected entity that is live, has
     * a defence, is alive and is on another team, with the damage as
     * given. The signal is sent inside the loop, so after the k-th hit the
     * k handles hit so far are signalled again; `batches` lists those
     * signals in order.
     */
    method DamageSelectedEntities(selected: seq<EntityData>, damage: real, ownTeam: int, killedIn: int)
      returns (killed: int, batches: seq<seq<Handle>>)
      modifies this`entities
      ensures var s := DamageSelected(SelState(old(entities), [], killedIn), selected, damage, ownTeam);
              && entities == s.ents && killed == s.killed
              && |batches| == |s.signaled|
              && forall k :: 0 <= k < |batches| ==> batches[k] == s.signaled[..k + 1]
      ensures var s := DamageSelected(SelState(old(entities), [], killedIn), selected, damage, ownTeam);
              && (forall h :: h in s.signaled ==> FromHandle(h) in selected && IsSelectedTarget(old(entities), h, ownTeam))
              && (forall d :: d in selected && IsSelectedTarget(old(entities), ToHandle(d), ownTeam) ==>
                    ToHandle(d) in s.signaled)
              && killed == killedIn + |DeadAmong(entities, s.signaled)|
              && killedIn <= killed <= killedIn + |s.signaled|
    {
      DamageSelectedEffects(SelState(entities, [], killedIn), selected, damage, ownTeam);
      var s;
      s, batches := HitSelected(entities, killedIn, selected, damage, ownTeam);
      entities, killed := s.ents, s.killed;
    }

    // ----- Grid upkeep -----

    /**
     * RegisterToGrid: for a live handle, removes every copy of it from the
     * cell of the old location, appends one copy to the cell of the new
     * location and returns the new location; for any other handle returns
     * the down vector and leaves the grid as it is.
     */
    method RegisterToGrid(newLocation: Vec3, h: Handle, oldLocation: Vec3) returns (r: Vec3)
      modifies grid
      ensures h !in entities ==> r == DownVector && grid.xCells == old(grid.xCells)
      ensures h in entities ==>
                r == newLocation &&
                grid.xCells == Added(Removed(old(grid.xCells), VectorToCell(oldLocation).0, VectorToCell(oldLocation).1, h),
                                     VectorToCell(newLocation).0, VectorToCell(newLocation).1, h)
    {
      if h !in entities {
        return DownVector;
      }
      var newCell := VectorToCell(newLocation);
      var oldCell := VectorToCell(oldLocation);
      var _ := grid.RemoveAt(oldCell.0, oldCell.1, h);
      grid.AddToGrid(newCell.0, newCell.1, h);
      r := newLocation;
    }

    /**
     * DestroyEntity: a live entity is removed from the cell of its last
     * registered location and destroyed; any other handle is ignored. The
     * location fragment is read unchecked, so a live entity must have one.
     */
    method DestroyEntity(h: Handle)
      requires h in entities ==> entities[h].locationData.Some?
      modifies this`entities, grid
      ensures h !in old(entities) ==> entities == old(entities) && grid.xCells == old(grid.xCells)
      ensures h in old(entities) ==>
                entities == old(entities) - {h} &&
                grid.xCells == Removed(old(grid.xCells), CellOf(old(entities)[h]).0, CellOf(old(entities)[h]).1, h)
    {
      if h !in entities {
        return;
      }
      var oldCell := VectorToCell(entities[h].locationData.value.oldLocation);
      var _ := grid.RemoveAt(oldCell.0, oldCell.1, h);
      entities := entities - {h};
    }

    // ----- Timed queues -----

    /** DestroyDelayed: schedules the handle unless it is already pending. */
    method DestroyDelayed(h: Handle, delay: real)
      modifies this`toDestroy
      ensures toDestroy == Scheduled(old(toDestroy), h, delay)
    {
      if h in toDestroy {
        return;
      }
      toDestroy := toDestroy[h := delay];
    }

    /**
     * DestroyStalledEntity: lowers every pending delay by dt and destroys
     * each entity whose delay has reached 0 or less. No entry is ever
     * removed from the countdown. Each expiring live entity is removed
     * from the cell of its last registered location.
     */
    method DestroyStalledEntity(dt: real)
      requires forall h :: h in Expired(toDestroy, dt) && h in entities ==> entities[h].locationData.Some?
      modifies this`entities, this`toDestroy, grid
      ensures toDestroy == CountedDown(old(toDestroy), dt)
      ensures entities == old(entities) - Expired(old(toDestroy), dt)
      ensures GridWithout(grid.xCells, old(grid.xCells), old(entities), Expired(old(toDestroy), dt))
    {
      ghost var ents0, cells0, m0 := entities, grid.xCells, toDestroy;
      ghost var expired := Expired(m0, dt);
      NothingRemoved(cells0, ents0);
      if |toDestroy| <= 0 {
        NothingExpires(m0, dt);
        assert entities == ents0 - expired;
        return;
      }
      var todo := toDestroy.Keys;
      ghost var done: set<Handle> := {};
      CountDownEnds(m0, dt);
      assert expired * done == {};
      assert entities == ents0 - expired * done;
      while todo != {}
        invariant done <= m0.Keys && todo == m0.Keys - done
        invariant toDestroy == PartlyCountedDown(m0, done, dt)
        invariant entities == ents0 - expired * done
        invariant GridWithout(grid.xCells, cells0, ents0, expired * done)
        decreases |todo|
      {
        var h :| h in todo;
        CountDownEntry(h, dt, ents0, cells0, m0, done);
        todo, done := todo - {h}, done + {h};
      }
      assert expired * done == expired;
    }

    /**
     * One entry of DestroyStalledEntity's walk: lowers the handle's delay
     * and, when it has run out, destroys the entity. The ghost parameters
     * are the state before the walk and the handles already visited.
     */
    method CountDownEntry(h: Handle, dt: real, ghost ents0: Directory, ghost cells0: Cells,
                          ghost m0: Countdown, ghost done: set<Handle>)
      requires h in m0 && h !in done
      requires h in Expired(m0, dt) && h in ents0 ==> ents0[h].locationData.Some?
      requires toDestroy == PartlyCountedDown(m0, done, dt)
      requires entities == ents0 - Expired(m0, dt) * done
      requires GridWithout(grid.xCells, cells0, ents0, Expired(m0, dt) * done)
      modifies this`entities, this`toDestroy, grid
      ensures toDestroy == PartlyCountedDown(m0, done + {h}, dt)
      ensures entities == ents0 - Expired(m0, dt) * (done + {h})
      ensures GridWithout(grid.xCells, cells0, ents0, Expired(m0, dt) * (done + {h}))
    {
      ghost var removed := Expired(m0, dt) * done;
      CountDownStep(m0, done, h, dt);
      toDestroy := toDestroy[h := toDestroy[h] - dt];
      if toDestroy[h] <= 0.0 {
        assert h in Expired(m0, dt) && h !in removed;
        ghost var cellsBefore := grid.xCells;
        DestroyEntity(h);
        assert Expired(m0, dt) * (done + {h}) == removed + {h};
        DestroyStep(cells0, ents0, removed, h, cellsBefore, grid.xCells);
        DirectoryMinusStep(ents0, removed, h);
      } else {
        assert Expired(m0, dt) * (done + {h}) == removed;
      }
    }

    /** SpawnAbilityDataDeferred: queues an ability effect to fire after the delay. */
    method SpawnAbilityDataDeferred(ability: AbilityData, location: Vec3, delay: real)
      modifies this`abilitySpawning
      ensures abilitySpawning == old(abilitySpawning) + [SpawningData(ability, location, delay)]
    {
      abilitySpawning := abilitySpawning + [SpawningData(ability, location, delay)];
    }

    /**
     * The second half of Tick: lowers the delay of every queued ability
     * effect once; an effect at or below zero fires (its sound and visual
     * effect are spawned) and is swap-removed, and the entry swapped into
     * its place is looked at next. Returns the fired effects in firing
     * order.
     */
    method FireDueAbilities(dt: real) returns (fired: seq<SpawningData>)
      modifies this`abilitySpawning
      ensures multiset(abilitySpawning) == Pending(old(abilitySpawning), dt)
      ensures multiset(fired) == Fired(old(abilitySpawning), dt)
    {
      ghost var queue0 := abilitySpawning;
      ghost var seen: seq<SpawningData> := [];
      fired := [];
      var i := 0;
      while i < |abilitySpawning|
        invariant TickInv(abilitySpawning, i, seen, fired, queue0, dt)
        decreases |abilitySpawning| - i
      {
        ghost var before, entry, firedBefore := abilitySpawning, abilitySpawning[i], fired;
        abilitySpawning := abilitySpawning[i := Decremented(abilitySpawning[i], dt)];
        ghost var lowered := abilitySpawning;
        if abilitySpawning[i].delay <= 0.0 {
          fired := fired + [abilitySpawning[i]];
          abilitySpawning := abilitySpawning[i := abilitySpawning[|abilitySpawning| - 1]][..|abilitySpawning| - 1];
          FireStep(before, i, seen, firedBefore, queue0, dt, lowered, abilitySpawning);
        } else {
          KeepStep(before, i, seen, fired, queue0, dt, lowered);
          i := i + 1;
        }
        seen := seen + [entry];
      }
      assert abilitySpawning[i..] == [] && abilitySpawning[..i] == abilitySpawning;
      PendingOfPermutation(seen, queue0, dt);
    }

    /**
     * Tick: DestroyStalledEntity, then the deferred ability effects.
     * Returns the fired effects in firing order.
     */
    method Tick(dt: real) returns (fired: seq<SpawningData>)
      requires forall h :: h in Expired(toDestroy, dt) && h in entities ==> entities[h].locationData.Some?
      modifies this`entities, this`toDestroy, this`abilitySpawning, grid
      ensures multiset(abilitySpawning) == Pending(old(abilitySpawning), dt)
      ensures multiset(fired) == Fired(old(abilitySpawning), dt)
      ensures toDestroy == CountedDown(old(toDestroy), dt)
      ensures entities == old(entities) - Expired(old(toDestroy), dt)
      ensures GridWithout(grid.xCells, old(grid.xCells), old(entities), Expired(old(toDestroy), dt))
    {
      DestroyStalledEntity(dt);
      fired := FireDueAbilities(dt);
    }

    // ----- Projectile handlers -----

    /**
     * RegisterProjectileManager: a handler that is absent (null) or
     * already registered is refused and the out-parameter is left as it
     * was; a new one is appended and its position returned.
     */
    method RegisterProjectileManager(manager: Option<int>, outId: int) returns (ok: bool, id: int)
      requires Valid()
      modifies this`projectileHandlers
      ensures Valid()
      ensures ok == (manager.Some? && manager.value !in old(projectileHandlers))
      ensures ok ==> projectileHandlers == old(projectileHandlers) + [manager.value] &&
                     id == |old(projectileHandlers)| && projectileHandlers[id] == manager.value
      ensures !ok ==> projectileHandlers == old(projectileHandlers) && id == outId
    {
      if manager.None? {
        return false, outId;
      }
      if manager.value in projectileHandlers {
        return false, outId;
      }
      id := |projectileHandlers|;
      projectileHandlers := projectileHandlers + [manager.value];
      ok := true;
    }
  }
}
