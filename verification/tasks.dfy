/**
 * The state-tree tasks and conditions that drive gathering and targeting:
 * FProcessResource's tick (process, pick up, drop), the close-enough
 * condition and the flag FFindClosestEnemy sets on entering its state.
 *
 * A task's resource fragment is the executing entity's own fragment in
 * the subsystem's directory: the tick updates it there, and a drop
 * deposits through the same directory.
 */
module SmbTasks {
  import opened SmbCommon
  import opened SmbFragments
  import opened SmbEntities
  import opened SmbGrid
  import opened SmbQueries
  import opened SmbLedger
  import opened SmbSubsystem

  /** ETaskType. */
  datatype ETaskType = Pickup | Drop | Process

  /** EStateTreeRunStatus, as far as these tasks return it. */
  datatype RunStatus = Running | Succeeded | Failed

  /** FProcessResourceInstanceData without its output target location. */
  datatype ProcessResourceData = ProcessResourceData(resourceType: EProcessable, processDuration: real, taskType: ETaskType)

  const DefaultProcessResource: ProcessResourceData := ProcessResourceData(Grass, 1.0, Pickup)

  // ----- Process -----

  /**
   * The requirement list can be read the way the tick reads it: the
   * amounts run at least as far as the kinds, and every required kind is
   * a key of Carrying (TMap's operator[] asserts on a missing key).
   */
  predicate ReqReadable(c: Amounts, req: ProcessableReqArr)
  {
    |req.amountArr| >= |req.typeArr| && forall i :: 0 <= i < |req.typeArr| ==> req.typeArr[i] in c
  }

  /** Every required kind is carried in at least the required amount. */
  predicate MeetsRequirements(c: Amounts, req: ProcessableReqArr)
    requires ReqReadable(c, req)
  {
    forall i :: 0 <= i < |req.typeArr| ==> c[req.typeArr[i]] >= req.amountArr[i]
  }

  /**
   * The Process branch's loop: fails at the first required kind carried
   * in less than the required amount.
   */
  method CheckRequirements(c: Amounts, req: ProcessableReqArr) returns (ok: bool)
    requires ReqReadable(c, req)
    ensures ok <==> MeetsRequirements(c, req)
    ensures !ok ==> exists i :: 0 <= i < |req.typeArr| && c[req.typeArr[i]] < req.amountArr[i]
  {
    var i := 0;
    while i < |req.typeArr|
      invariant 0 <= i <= |req.typeArr|
      invariant forall j :: 0 <= j < i ==> c[req.typeArr[j]] >= req.amountArr[j]
    {
      if c[req.typeArr[i]] < req.amountArr[i] {
        return false;
      }
      i := i + 1;
    }
    return true;
  }

  /** Carrying more of every kind never makes a met requirement fail. */
  lemma MoreCarriedStillMeets(c: Amounts, d: Amounts, req: ProcessableReqArr)
    requires ReqReadable(c, req) && MeetsRequirements(c, req)
    requires forall k :: k in c ==> k in d && d[k] >= c[k]
    ensures ReqReadable(d, req) && MeetsRequirements(d, req)
  {
    forall i | 0 <= i < |req.typeArr|
      ensures req.typeArr[i] in d && d[req.typeArr[i]] >= req.amountArr[i]
    {
      assert req.typeArr[i] in c;
    }
  }

  // ----- Pickup -----

  /** The gathering bonus of a kind: the stored one, or 1.0 when none is stored. */
  function BonusOf(r: ResourceFragment, k: EProcessable): real
  {
    if k in r.bonusMap then r.bonusMap[k] else 1.0
  }

  /**
   * Pickup: stores the bonus 1.0 when the kind has none, then adds the
   * bonus to the carried amount. The sum is a float stored into an int32,
   * so its fraction is dropped.
   */
  function PickedUp(r: ResourceFragment, k: EProcessable): ResourceFragment
  {
    var bonus := BonusOf(r, k);
    r.(bonusMap := r.bonusMap[k := bonus],
       carrying := r.carrying[k := TruncToInt(Get(r.carrying, k) as real + bonus)])
  }

  /** Adding a whole number to a non-negative real moves its truncation by that number. */
  lemma TruncShift(n: int, b: real)
    requires 0 <= n && 0.0 <= b
    ensures TruncToInt(n as real + b) == n + TruncToInt(b)
  {
    var m := TruncToInt(n as real + b);
    var t := TruncToInt(b);
    assert m as real <= n as real + b < m as real + 1.0;
    assert (n + t) as real <= n as real + b < (n + t) as real + 1.0;
  }

  /**
   * What a pickup does: the kind's bonus is kept or set to 1.0, the
   * carried amount grows by the whole part of the bonus (by one without a
   * stored bonus), and nothing else changes.
   */
  lemma PickupGathers(r: ResourceFragment, k: EProcessable)
    requires 0 <= Get(r.carrying, k) && 0.0 <= BonusOf(r, k)
    ensures var r' := PickedUp(r, k);
            && k in r'.bonusMap && k in r'.carrying
            && (k in r.bonusMap ==> r'.bonusMap == r.bonusMap)
            && (k !in r.bonusMap ==> r'.bonusMap[k] == 1.0)
            && r'.carrying[k] == Get(r.carrying, k) + TruncToInt(BonusOf(r, k))
            && (k !in r.bonusMap ==> r'.carrying[k] == Get(r.carrying, k) + 1)
            && (forall j :: j != k ==> Get(r'.carrying, j) == Get(r.carrying, j))
            && r'.timeSinceGatherStart == r.timeSinceGatherStart
  {
    TruncShift(Get(r.carrying, k), BonusOf(r, k));
  }

  // ----- Drop -----

  /** The carried amounts after a drop: every kind but Storage set to 0. */
  function Emptied(c: Amounts): (r: Amounts)
    ensures r.Keys == c.Keys
  {
    map k | k in c :: if k == Storage then c[k] else 0
  }

  /**
   * The target's carried amounts once the drop has deposited the
   * non-Storage amounts of `c` for the kinds in `done`.
   */
  function HandedOver(t: Amounts, c: Amounts, done: set<EProcessable>): Amounts
  {
    map k | k in t.Keys + (done * c.Keys - {Storage}) :: Get(t, k) + if k in done && k in c && k != Storage then c[k] else 0
  }

  /** Handing over one more carried kind deposits its full amount, unless it is Storage. */
  lemma HandedStep(t: Amounts, c: Amounts, done: set<EProcessable>, k: EProcessable)
    requires k in c && k !in done
    ensures HandedOver(t, c, done + {k}) ==
            if k != Storage then Deposit(HandedOver(t, c, done), k, c[k]) else HandedOver(t, c, done)
  {
  }

  /** The dropper's carried amounts once the kinds in `done` have been handed over. */
  function ZeroedOver(c: Amounts, done: set<EProcessable>): (r: Amounts)
    ensures r.Keys == c.Keys
  {
    map k | k in c :: if k != Storage && k in done then 0 else c[k]
  }

  /** Handing over one more carried kind zeroes it, unless it is Storage. */
  lemma ZeroedStep(c: Amounts, done: set<EProcessable>, k: EProcessable)
    requires k in c && k !in done
    ensures ZeroedOver(c, done)[k] == c[k]
    ensures ZeroedOver(c, done + {k}) == if k != Storage then ZeroedOver(c, done)[k := 0] else ZeroedOver(c, done)
  {
  }

  /** Before the walk nothing has moved; after every carried kind the dropper is emptied. */
  lemma DropEnds(t: Amounts, c: Amounts)
    ensures HandedOver(t, c, {}) == t
    ensures ZeroedOver(c, {}) == c
    ensures ZeroedOver(c, c.Keys) == Emptied(c)
  {
  }

  /**
   * A drop into an entity with a resource fragment loses and creates
   * nothing: for every kind, what the dropper keeps plus what the target
   * holds afterwards is what the two held before, and only Storage stays
   * with the dropper.
   */
  lemma DropConserves(t: Amounts, c: Amounts, k: EProcessable)
    ensures Get(Emptied(c), k) + Get(HandedOver(t, c, c.Keys), k) == Get(c, k) + Get(t, k)
    ensures k != Storage ==> Get(Emptied(c), k) == 0
    ensures Get(Emptied(c), Storage) == Get(c, Storage)
  {
  }

  /** Moving one key from the keys to visit to the keys visited keeps them a partition. */
  lemma VisitOne<K>(keys: set<K>, done: set<K>, todo: set<K>, k: K)
    requires done <= keys && todo == keys - done && k in todo
    ensures done + {k} <= keys && todo - {k} == keys - (done + {k})
  {
  }

  /**
   * The target entity once the non-Storage amounts of `c` for the kinds
   * in `done` are deposited, or unchanged without a resource fragment.
   */
  function ReceivedOver(e: Entity, c: Amounts, done: set<EProcessable>): Entity
  {
    if e.resource.Some? then WithCarrying(e, HandedOver(e.resource.value.carrying, c, done)) else e
  }

  /** The target entity after the whole drop. */
  function Received(e: Entity, c: Amounts): Entity
  {
    ReceivedOver(e, c, c.Keys)
  }

  /** The directory with the resource fragment of `h` replaced by `r`. */
  function Holding(ents: Directory, h: Handle, r: ResourceFragment): (m: Directory)
    requires h in ents
    ensures m.Keys == ents.Keys && m[h].resource == Some(r)
  {
    ents[h := ents[h].(resource := Some(r))]
  }

  /**
   * The directory once the kinds in `done` of the dropper's carried
   * amounts are handed over. The dropper's fragment is the one in the
   * directory, so a drop onto the dropper itself zeroes each amount and
   * deposits it straight back: nothing changes. Otherwise the dropper's
   * amounts for those kinds are zeroed and the target (when it has a
   * resource fragment) holds them on top of its own.
   */
  ghost function DroppedOver(ents0: Directory, self: Handle, target: Handle, done: set<EProcessable>): Directory
    requires self in ents0 && target in ents0 && ents0[self].resource.Some?
  {
    if target == self then ents0
    else
      var c0 := ents0[self].resource.value.carrying;
      ents0[self := WithCarrying(ents0[self], ZeroedOver(c0, done))][target := ReceivedOver(ents0[target], c0, done)]
  }

  /**
   * The Drop branch's loop over the dropper's carried kinds, in the map's
   * own order: each non-Storage amount is read, set to 0 in the dropper's
   * own fragment and passed to AddToEntity on the target. A target without
   * a resource fragment refuses every deposit, so the amounts are lost; a
   * target that is the dropper gets every amount back.
   */
  method DropCarried(s: Subsystem, self: Handle, target: Handle)
    requires self in s.entities && target in s.entities && s.entities[self].resource.Some?
    modifies s`entities
    ensures target == self ==> s.entities == old(s.entities)
    ensures target != self ==>
              var c := old(s.entities[self].resource.value.carrying);
              s.entities == old(s.entities)[self := WithCarrying(old(s.entities[self]), Emptied(c))]
                                           [target := Received(old(s.entities[target]), c)]
  {
    ghost var ents0 := s.entities;
    var keys := s.entities[self].resource.value.carrying.Keys;
    DropStarts(ents0, self, target);
    var todo := keys;
    ghost var done: set<EProcessable> := {};
    while todo != {}
      invariant done <= keys && todo == keys - done
      invariant s.entities == DroppedOver(ents0, self, target, done)
      decreases |todo|
    {
      var k :| k in todo;
      HandOverKind(s, self, target, k, ents0, done);
      VisitOne(keys, done, todo, k);
      todo, done := todo - {k}, done + {k};
    }
    assert done == keys;
    DropEnds(map[], ents0[self].resource.value.carrying);
  }

  /** Before the walk nothing has been handed over. */
  lemma DropStarts(ents0: Directory, self: Handle, target: Handle)
    requires self in ents0 && target in ents0 && ents0[self].resource.Some?
    ensures DroppedOver(ents0, self, target, {}) == ents0
  {
    var e0 := ents0[target];
    var c0 := ents0[self].resource.value.carrying;
    DropEnds(if e0.resource.Some? then e0.resource.value.carrying else map[], c0);
    if target != self {
      assert WithCarrying(ents0[self], c0) == ents0[self];
      assert ReceivedOver(e0, c0, {}) == e0;
    }
  }

  /**
   * One kind of the drop: unless it is Storage, its amount is read from
   * the dropper's fragment, zeroed there and deposited in the target with
   * AddToEntity.
   */
  method HandOverKind(s: Subsystem, self: Handle, target: Handle, k: EProcessable,
                      ghost ents0: Directory, ghost done: set<EProcessable>)
    requires self in ents0 && target in ents0 && ents0[self].resource.Some?
    requires k in ents0[self].resource.value.carrying && k !in done
    requires s.entities == DroppedOver(ents0, self, target, done)
    modifies s`entities
    ensures s.entities == DroppedOver(ents0, self, target, done + {k})
  {
    ghost var c0 := ents0[self].resource.value.carrying;
    ghost var e0 := ents0[target];
    ghost var t0 := if e0.resource.Some? then e0.resource.value.carrying else map[];
    ZeroedStep(c0, done, k);
    HandedStep(t0, c0, done, k);
    if k != Storage {
      var e := s.entities[self];
      var amount := e.resource.value.carrying[k];
      s.entities := s.entities[self := WithCarrying(e, e.resource.value.carrying[k := 0])];
      ghost var mid := s.entities;
      var ok := s.AddToEntity(target, k, amount);
      if target == self {
        SelfDropStep(ents0, self, k, mid, s.entities);
      } else {
        OtherDropStep(ents0, self, target, done, k, mid, s.entities);
      }
    }
  }

  /** On the dropper itself, zeroing a kind and depositing its amount back restores the directory. */
  lemma SelfDropStep(ents0: Directory, self: Handle, k: EProcessable, mid: Directory, after: Directory)
    requires self in ents0 && ents0[self].resource.Some? && k in ents0[self].resource.value.carrying
    requires var e := ents0[self];
             mid == ents0[self := WithCarrying(e, e.resource.value.carrying[k := 0])]
    requires after == mid[self := WithCarrying(mid[self], Deposit(mid[self].resource.value.carrying, k,
                                                                   ents0[self].resource.value.carrying[k]))]
    ensures after == ents0
  {
    var e := ents0[self];
    var c := e.resource.value.carrying;
    assert Deposit(c[k := 0], k, c[k]) == c;
    assert after[self] == e;
  }

  /** With a distinct target, one kind moves from the dropper to the target (when it takes deposits). */
  lemma OtherDropStep(ents0: Directory, self: Handle, target: Handle, done: set<EProcessable>,
                      k: EProcessable, mid: Directory, after: Directory)
    requires self in ents0 && target in ents0 && ents0[self].resource.Some? && self != target
    requires k in ents0[self].resource.value.carrying && k !in done && k != Storage
    requires var before := DroppedOver(ents0, self, target, done);
             var e := before[self];
             mid == before[self := WithCarrying(e, e.resource.value.carrying[k := 0])]
    requires target in mid
    requires mid[target].resource.Some? ==>
               after == mid[target := WithCarrying(mid[target], Deposit(mid[target].resource.value.carrying, k,
                                                                         DroppedOver(ents0, self, target, done)[self].resource.value.carrying[k]))]
    requires mid[target].resource.None? ==> after == mid
    ensures after == DroppedOver(ents0, self, target, done + {k})
  {
    var c0 := ents0[self].resource.value.carrying;
    var e0 := ents0[target];
    var a := WithCarrying(ents0[self], ZeroedOver(c0, done));
    var b := ReceivedOver(e0, c0, done);
    var a' := WithCarrying(ents0[self], ZeroedOver(c0, done + {k}));
    var b' := ReceivedOver(e0, c0, done + {k});
    DropperStep(ents0[self], done, k);
    if e0.resource.Some? {
      TargetStep(e0, c0, done, k);
    }
    UpdatesCommute(ents0, self, target, a, b, a', b');
  }

  /** Updating two distinct keys twice keeps only the second values. */
  lemma UpdatesCommute<K, V>(m: map<K, V>, x: K, y: K, a: V, b: V, a': V, b': V)
    requires x != y
    ensures m[x := a][y := b][x := a'][y := b'] == m[x := a'][y := b']
    ensures m[x := a][y := b][x := a'] == m[x := a'][y := b]
  {
  }

  /** The dropper's side of one step: the amount read is the original one, and zeroing it advances the walk. */
  lemma DropperStep(e: Entity, done: set<EProcessable>, k: EProcessable)
    requires e.resource.Some? && k in e.resource.value.carrying && k !in done && k != Storage
    ensures var c0 := e.resource.value.carrying;
            var a := WithCarrying(e, ZeroedOver(c0, done));
            && a.resource.value.carrying[k] == c0[k]
            && WithCarrying(a, a.resource.value.carrying[k := 0]) == WithCarrying(e, ZeroedOver(c0, done + {k}))
  {
    ZeroedStep(e.resource.value.carrying, done, k);
  }

  /** The target's side of one step: depositing the amount advances what it has received. */
  lemma TargetStep(e: Entity, c0: Amounts, done: set<EProcessable>, k: EProcessable)
    requires e.resource.Some? && k in c0 && k !in done && k != Storage
    ensures var b := ReceivedOver(e, c0, done);
            WithCarrying(b, Deposit(b.resource.value.carrying, k, c0[k])) == ReceivedOver(e, c0, done + {k})
  {
    HandedStep(e.resource.value.carrying, c0, done, k);
  }

  // ----- The tick -----

  /** The gather timer, advanced by the frame time, has reached the process duration. */
  predicate Due(r: ResourceFragment, task: ProcessResourceData, dt: real)
  {
    r.timeSinceGatherStart + dt >= task.processDuration
  }

  /**
   * The Pickup branch: the bonus 1.0 is stored when the kind has none, and
   * the kind's carried amount grows by the bonus, truncated to an int32.
   */
  method Gather(r: ResourceFragment, kind: EProcessable) returns (r': ResourceFragment)
    ensures r' == PickedUp(r, kind)
  {
    var bonusMap := r.bonusMap;
    if kind !in bonusMap {
      bonusMap := bonusMap[kind := 1.0];
    }
    var carrying := r.carrying;
    if kind !in carrying {
      carrying := carrying[kind := TruncToInt(1.0 * bonusMap[kind])];
    } else {
      carrying := carrying[kind := TruncToInt(carrying[kind] as real + 1.0 * bonusMap[kind])];
    }
    r' := r.(bonusMap := bonusMap, carrying := carrying);
  }

  /**
   * The Drop branch: the closest registered entity of the kind to the
   * dropper's location; when it is live, every carried kind is handed
   * over and the task succeeds, otherwise it fails and nothing moves.
   */
  method DropToClosest(s: Subsystem, self: Handle, kind: EProcessable) returns (status: RunStatus)
    requires s.Valid()
    requires self in s.entities && s.entities[self].resource.Some? && s.entities[self].location.Some?
    modifies s`entities
    ensures var target := old(s.ClosestResource(kind, LocationOf(s.entities, self)));
            var c := old(s.entities[self].resource.value.carrying);
            && (target !in old(s.entities) ==> status == Failed && s.entities == old(s.entities))
            && (target == self ==> status == Succeeded && s.entities == old(s.entities))
            && (target in old(s.entities) && target != self ==>
                  && status == Succeeded
                  && s.entities == old(s.entities)[self := WithCarrying(old(s.entities[self]), Emptied(c))]
                                                  [target := Received(old(s.entities[target]), c)])
  {
    var target := s.GetClosestResource(kind, LocationOf(s.entities, self));
    if target in s.entities {
      DropCarried(s, self, target);
      return Succeeded;
    }
    return Failed;
  }

  /** A drop after the timer reset: the dropper keeps the reset fragment with its amounts emptied. */
  lemma DropOnReset(ents: Directory, self: Handle, target: Handle, r: ResourceFragment)
    requires self in ents && target in ents && self != target
    ensures var m := Holding(ents, self, r);
            m[self := WithCarrying(m[self], Emptied(r.carrying))][target := Received(m[target], r.carrying)]
              == Holding(ents, self, r.(carrying := Emptied(r.carrying)))[target := Received(ents[target], r.carrying)]
  {
  }

  /**
   * FProcessResource::Tick once the gather timer has reached the duration,
   * on the executing entity `self`, whose resource fragment and transform
   * are its own fragments in the directory. The timer goes back to 0 and
   * the task type decides: Process fails when a requirement is not met
   * and otherwise keeps running without consuming anything; Pickup
   * gathers and succeeds; Drop hands everything but Storage to the
   * closest registered entity of the kind and succeeds, or fails when that
   * entity is not live. A drop onto the entity itself leaves its amounts
   * as they were.
   */
  method ProcessDue(s: Subsystem, task: ProcessResourceData, self: Handle) returns (status: RunStatus)
    requires s.Valid()
    requires self in s.entities && s.entities[self].resource.Some? && s.entities[self].location.Some?
    requires task.taskType == Process && task.resourceType in s.reqMap.reqMap ==>
               ReqReadable(s.entities[self].resource.value.carrying, s.reqMap.reqMap[task.resourceType])
    modifies s`entities
    ensures var r := old(s.entities[self].resource.value);
            var kind := task.resourceType;
            task.taskType == Process ==>
              && status == (if kind in s.reqMap.reqMap && !MeetsRequirements(r.carrying, s.reqMap.reqMap[kind])
                            then Failed else RunStatus.Running)
              && s.entities == Holding(old(s.entities), self, r.(timeSinceGatherStart := 0.0))
    ensures var r := old(s.entities[self].resource.value);
            task.taskType == Pickup ==>
              status == Succeeded &&
              s.entities == Holding(old(s.entities), self, PickedUp(r.(timeSinceGatherStart := 0.0), task.resourceType))
    ensures var r := old(s.entities[self].resource.value);
            var target := old(s.ClosestResource(task.resourceType, LocationOf(s.entities, self)));
            var reset := r.(timeSinceGatherStart := 0.0);
            task.taskType == Drop ==>
              && (target !in old(s.entities) ==> status == Failed && s.entities == Holding(old(s.entities), self, reset))
              && (target == self ==> status == Succeeded && s.entities == Holding(old(s.entities), self, reset))
              && (target in old(s.entities) && target != self ==>
                    && status == Succeeded
                    && s.entities == Holding(old(s.entities), self, reset.(carrying := Emptied(r.carrying)))
                                            [target := Received(old(s.entities[target]), r.carrying)])
  {
    var e := s.entities[self];
    var r := e.resource.value.(timeSinceGatherStart := 0.0);
    s.entities := s.entities[self := e.(resource := Some(r))];
    var kind := task.resourceType;
    if task.taskType == Process {
      if kind in s.reqMap.reqMap {
        var ok := CheckRequirements(r.carrying, s.reqMap.reqMap[kind]);
        if !ok {
          return Failed;
        }
      }
    }
    if task.taskType == Pickup {
      r := Gather(r, kind);
      s.entities := s.entities[self := e.(resource := Some(r))];
      return Succeeded;
    }
    if task.taskType == Drop {
      ghost var target := s.ClosestResource(kind, LocationOf(s.entities, self));
      assert target == old(s.ClosestResource(kind, LocationOf(s.entities, self)));
      status := DropToClosest(s, self, kind);
      if target in old(s.entities) && target != self {
        DropOnReset(old(s.entities), self, target, r);
      }
      return;
    }
    return RunStatus.Running;
  }

  /**
   * FProcessResource::Tick: the gather timer in the entity's own resource
   * fragment advances by the frame time; until it reaches the duration
   * the task keeps running, and once it does the due step runs.
   */
  method ProcessResourceTick(s: Subsystem, task: ProcessResourceData, self: Handle, dt: real)
    returns (status: RunStatus)
    requires s.Valid()
    requires self in s.entities && s.entities[self].resource.Some? && s.entities[self].location.Some?
    requires var r := s.entities[self].resource.value;
             Due(r, task, dt) && task.taskType == Process && task.resourceType in s.reqMap.reqMap ==>
               ReqReadable(r.carrying, s.reqMap.reqMap[task.resourceType])
    modifies s`entities
    ensures var r := old(s.entities[self].resource.value);
            !Due(r, task, dt) ==>
              status == RunStatus.Running &&
              s.entities == Holding(old(s.entities), self, r.(timeSinceGatherStart := r.timeSinceGatherStart + dt))
    ensures var r := old(s.entities[self].resource.value);
            var kind := task.resourceType;
            Due(r, task, dt) && task.taskType == Process ==>
              && status == (if kind in s.reqMap.reqMap && !MeetsRequirements(r.carrying, s.reqMap.reqMap[kind])
                            then Failed else RunStatus.Running)
              && s.entities == Holding(old(s.entities), self, r.(timeSinceGatherStart := 0.0))
    ensures var r := old(s.entities[self].resource.value);
            Due(r, task, dt) && task.taskType == Pickup ==>
              status == Succeeded &&
              s.entities == Holding(old(s.entities), self, PickedUp(r.(timeSinceGatherStart := 0.0), task.resourceType))
    ensures var r := old(s.entities[self].resource.value);
            var target := old(s.ClosestResource(task.resourceType, LocationOf(s.entities, self)));
            var reset := r.(timeSinceGatherStart := 0.0);
            Due(r, task, dt) && task.taskType == Drop ==>
              && (target !in old(s.entities) ==> status == Failed && s.entities == Holding(old(s.entities), self, reset))
              && (target == self ==> status == Succeeded && s.entities == Holding(old(s.entities), self, reset))
              && (target in old(s.entities) && target != self ==>
                    && status == Succeeded
                    && s.entities == Holding(old(s.entities), self, reset.(carrying := Emptied(r.carrying)))
                                            [target := Received(old(s.entities[target]), r.carrying)])
  {
    var e := s.entities[self];
    var r := e.resource.value;
    r := r.(timeSinceGatherStart := r.timeSinceGatherStart + dt);
    s.entities := s.entities[self := e.(resource := Some(r))];
    if r.timeSinceGatherStart >= task.processDuration {
      ghost var target := s.ClosestResource(task.resourceType, LocationOf(s.entities, self));
      assert target == old(s.ClosestResource(task.resourceType, LocationOf(s.entities, self)));
      status := ProcessDue(s, task, self);
      AdvanceForgotten(old(s.entities), self, r);
      return;
    }
    return RunStatus.Running;
  }

  /** Writing the advanced timer and then a due step's fragment leaves only the due step's fragment. */
  lemma AdvanceForgotten(ents: Directory, self: Handle, advanced: ResourceFragment)
    requires self in ents
    ensures forall x :: Holding(Holding(ents, self, advanced), self, x) == Holding(ents, self, x)
  {
  }

  // ----- Conditions -----

  /** FIsCloseEnoughConditionInstanceData. */
  datatype CloseEnoughData = CloseEnoughData(inLocation: Vec3, acceptableDistance: real)

  const DefaultCloseEnough: CloseEnoughData := CloseEnoughData(ZeroVector, 50.0)

  /**
   * FIsCloseEnoughCondition::TestCondition: whether the entity is closer
   * than the acceptable distance to its own walk target (which also sets
   * its animation to Idle) or, without the internal target, to the given
   * location; the answer is flipped when the result is inverted.
   */
  function TestCloseEnough(data: CloseEnoughData, invertResult: bool, useInternalWalkTarget: bool,
                           entityLocation: Vec3, locationData: LocationDataFragment, anim: AnimationFragment)
    : (bool, AnimationFragment)
  {
    if useInternalWalkTarget then
      (CloserThan(locationData.walkToLocation, entityLocation, data.acceptableDistance) != invertResult,
       anim.(currentState := Idle))
    else
      (CloserThan(data.inLocation, entityLocation, data.acceptableDistance) != invertResult, anim)
  }

  /**
   * The condition agrees with the distance itself: for the length d of
   * the vector to the goal, the answer is (d < acceptable distance)
   * flipped by the inversion flag. Only the internal walk target sets the
   * animation to Idle, and nothing else of the animation changes.
   */
  lemma CloseEnoughMeansDistance(data: CloseEnoughData, invertResult: bool, useInternalWalkTarget: bool,
                                 entityLocation: Vec3, locationData: LocationDataFragment, anim: AnimationFragment, d: real)
    requires 0.0 <= d
    requires d * d == DistSq(if useInternalWalkTarget then locationData.walkToLocation else data.inLocation, entityLocation)
    ensures var r := TestCloseEnough(data, invertResult, useInternalWalkTarget, entityLocation, locationData, anim);
            && r.0 == ((d < data.acceptableDistance) != invertResult)
            && r.1.currentState == (if useInternalWalkTarget then Idle else anim.currentState)
            && r.1.(currentState := anim.currentState) == anim
  {
    var goal := if useInternalWalkTarget then locationData.walkToLocation else data.inLocation;
    LengthComparisons(d, DistSq(goal, entityLocation), data.acceptableDistance);
  }

  /**
   * FFindClosestEnemy::EnterState: asks the subsystem for the closest
   * enemy within the search distance and records it; the found flag is
   * cleared exactly when the answer is the "no entity" sentinel, which
   * happens exactly when no enemy candidate is around.
   */
  method FindClosestEnemyEnter(s: Subsystem, location: Vec3, teamId: int, maxDistance: real)
    returns (found: bool, target: EntityData)
    requires s.Valid()
    ensures found <==> target != NoEntity
    ensures var c := VectorToCell(location);
            var units := Around(s.grid.xCells, c.0, c.1, QueryCellRadius(maxDistance));
            && (found <==> exists j :: 0 <= j < |units| && IsEnemyCandidate(s.entities, units[j], teamId))
            && (found ==> exists i :: ClosestEnemyAt(s.entities, units, location, teamId, i) && target == FromHandle(units[i]))
  {
    found := true;
    target := s.GetClosestEnemy(location, teamId, maxDistance);
    if target.serialNumber == -1 && target.index == -1 {
      found := false;
    }
  }
}
