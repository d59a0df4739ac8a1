/**
 * Two Mass processors that keep per-entity state between frames.
 *
 * URegisterProcessor reads the ground trace the entity asked for, keeps the
 * entity's place in the grid current every refresh period, and tells an
 * entity that has stopped moving to stand still. UAbilityProcessor runs the
 * attack cycle: find the target, cancel when it is gone or out of reach,
 * wait until the hit time, hit once, and finish after the recovery time.
 *
 * Each processor is modelled as one step per entity, specified by a pure
 * function of the entity's fragments (`Registered`, `Attack`), and one pass
 * over a chunk of entities that collects the entities to signal.
 */
module SmbProcessors {
  import opened SmbCommon
  import opened SmbFragments
  import opened SmbEntities
  import opened SmbAbility
  import opened SmbGrid
  import opened SmbDamage
  import opened SmbQueues
  import opened SmbSubsystem

  function Plus(a: Vec3, b: Vec3): Vec3 { Vec3(a.x + b.x, a.y + b.y, a.z + b.z) }

  function Minus(a: Vec3, b: Vec3): Vec3 { Vec3(a.x - b.x, a.y - b.y, a.z - b.z) }

  function Scaled(a: Vec3, k: real): Vec3 { Vec3(a.x * k, a.y * k, a.z * k) }

  // ----- URegisterProcessor -----

  /** The register processor never advances its timers by more than this per frame. */
  const RegisterMaxDelta: real := 0.2

  /** The bounds the trace distance multiplier is clamped to. */
  const MinTraceMulti: real := 0.22
  const MaxTraceMulti: real := 4.0

  /** How far (in world units) the entity must have moved, on average, not to count as stalled. */
  const StallDistance: real := 40.0

  /**
   * The asynchronous ground trace as the processor sees it: `Pending` when
   * the trace handle is not valid (no trace was issued), `Missed` when a
   * trace was issued but its data holds no hit (a trace that hit nothing,
   * or one whose data could not be fetched, leaving the hit list empty),
   * and `Impact(z)` when the first hit is at height `z`.
   */
  datatype TraceReply = Pending | Missed | Impact(z: real)

  /** One entity of a chunk, as the register processor sees it. */
  datatype RegisterUnit = RegisterUnit(
    self: Handle,
    location: Vec3,
    data: LocationDataFragment,
    anim: AnimationFragment,
    trace: TraceReply,
    /** The length of the move since the last registration, |OldLocation - location|. */
    moved: real,
    /** The value FMath::RandRange(0, BaseRefresh * 0.3) produced for the refresh timer. */
    draw: real)

  /** `moved` is the distance between the last registered location and the current one. */
  predicate MovedMeasured(u: RegisterUnit)
  {
    0.0 <= u.moved && u.moved * u.moved == DistSq(u.data.oldLocation, u.location)
  }

  /** The trace result is read once: a trace has answered, its result is not yet in, and the entity rechecks. */
  predicate ReadsTrace(ld: LocationDataFragment, trace: TraceReply)
  {
    trace != Pending && !ld.traceResultIn && ld.shouldRecheckNav
  }

  /**
   * The ground is at least 20 / TraceDistMulti below or above the entity.
   * Dividing by a zero multiplier gives an infinite threshold, which no
   * height difference reaches.
   */
  predicate FarFromGround(ld: LocationDataFragment, z: real, groundZ: real)
  {
    ld.traceDistMulti != 0.0 && Abs(z - groundZ) >= 20.0 / ld.traceDistMulti
  }

  /** The extra wait a trace answer adds: a tenth of the refresh period, scaled by the multiplier. */
  function TraceDelay(baseRefresh: real, multi: real): real
  {
    (baseRefresh / 10.0) * multi
  }

  predicate MultiInRange(ld: LocationDataFragment)
  {
    MinTraceMulti <= ld.traceDistMulti <= MaxTraceMulti
  }

  /**
   * The trace branch of the register step: the fragment afterwards and
   * whether the entity must be told that its move target changed.
   */
  function TraceRead(ld: LocationDataFragment, z: real, trace: TraceReply): (LocationDataFragment, bool)
  {
    if !ReadsTrace(ld, trace) then (ld, false)
    else
      var m := ld.traceDistMulti;
      var d := ld.(traceResultIn := true);
      match trace
      case Impact(groundZ) =>
        if FarFromGround(ld, z, groundZ) then
          (d.(newLocation := true,
              timeSince := d.timeSince + TraceDelay(d.baseRefresh, m),
              traceDistMulti := Clamp(m * 2.5, MinTraceMulti, MaxTraceMulti)), true)
        else
          (d.(traceDistMulti := Clamp(m / 2.5, MinTraceMulti, MaxTraceMulti)), false)
      case Missed =>
        var m' := Clamp(m * 3.0, MinTraceMulti, MaxTraceMulti);
        (d.(traceDistMulti := m', timeSince := d.timeSince + TraceDelay(d.baseRefresh, m')), false)
  }

  /**
   * What reading the trace does: the multiplier ends clamped, grows when
   * the ground is far or missing and shrinks when it is near; the timer
   * advances by a tenth of the refresh period scaled by the old multiplier
   * (far ground) or the new one (no ground); only a far ground signals.
   */
  lemma TraceReadEffects(ld: LocationDataFragment, z: real, trace: TraceReply, r: (LocationDataFragment, bool))
    requires r == TraceRead(ld, z, trace)
    ensures !ReadsTrace(ld, trace) ==> r == (ld, false)
    ensures ReadsTrace(ld, trace) ==> r.0.traceResultIn && MultiInRange(r.0)
    ensures MultiInRange(ld) ==> MultiInRange(r.0)
    ensures r.1 <==> ReadsTrace(ld, trace) && trace.Impact? && FarFromGround(ld, z, trace.z)
    ensures r.0.newLocation == (ld.newLocation || r.1)
    // a far ground raises the multiplier and advances the timer by the old one
    ensures r.1 ==> r.0.timeSince == ld.timeSince + (ld.baseRefresh / 10.0) * ld.traceDistMulti
    ensures r.1 && MultiInRange(ld) ==> r.0.traceDistMulti >= ld.traceDistMulti
    // a near ground lowers it and leaves the timer alone
    ensures ReadsTrace(ld, trace) && trace.Impact? && !r.1 ==>
              r.0.timeSince == ld.timeSince &&
              (MultiInRange(ld) ==> r.0.traceDistMulti <= ld.traceDistMulti)
    // no ground raises it and advances the timer by the new one
    ensures ReadsTrace(ld, trace) && trace.Missed? ==>
              r.0.timeSince == ld.timeSince + (ld.baseRefresh / 10.0) * r.0.traceDistMulti &&
              (MultiInRange(ld) ==> r.0.traceDistMulti >= ld.traceDistMulti)
    // nothing else changes
    ensures r.0.(traceResultIn := ld.traceResultIn, traceDistMulti := ld.traceDistMulti,
                 timeSince := ld.timeSince, newLocation := ld.newLocation) == ld
  {
  }

  /**
   * The stall rule, once the entity has moved at most `StallDistance` on
   * average: the streak grows by one, or restarts at 0 for an idle entity;
   * from a streak of 2 on the entity is made idle and walks to where it
   * stands, and stops treating its walk target as an attack location when
   * it is more than 200 units away from where it walked before the attack.
   */
  function Stalled(ld: LocationDataFragment, anim: AnimationFragment, location: Vec3)
    : (r: (LocationDataFragment, AnimationFragment))
  {
    var streak := if anim.currentState == Idle then 0 else ld.didNotMoveStreak + 1;
    if streak >= 2 then
      var d := if ld.prevWalkToLocationBeforeAttack != ZeroVector &&
                  !WithinDist(ld.prevWalkToLocationBeforeAttack, location, 200.0)
               then ld.(isAttackLocation := false) else ld;
      (d.(didNotMoveStreak := streak, walkToLocation := location), anim.(currentState := Idle))
    else
      (ld.(didNotMoveStreak := streak), anim)
  }

  /**
   * The part of a due refresh before the grid is updated: a new trace is
   * asked for, the average movement decays by 1.2 and takes in the latest
   * move, and the stall rule runs when that average is small.
   */
  function Refreshed(ld: LocationDataFragment, anim: AnimationFragment, location: Vec3, moved: real)
    : (LocationDataFragment, AnimationFragment)
  {
    var d1 := if ld.shouldRecheckNav then ld.(traceResultIn := false) else ld;
    var d2 := d1.(exponentialMove := d1.exponentialMove / 1.2 + moved);
    if d2.exponentialMove <= StallDistance then Stalled(d2, anim, location)
    else (d2.(didNotMoveStreak := 0), anim)
  }

  /** What one register step leaves behind. */
  datatype RegisterResult = RegisterResult(
    data: LocationDataFragment, anim: AnimationFragment, signal: bool, due: bool)

  /**
   * The register step of one entity with frame time `dt`; `live` says
   * whether the grid accepts the entity (RegisterToGrid's own check).
   */
  function Registered(u: RegisterUnit, live: bool, dt: real): RegisterResult
  {
    var t := TraceRead(u.data, u.location.z, u.trace);
    var d := t.0.(timeSince := t.0.timeSince + dt);
    if d.timeSince < d.baseRefresh then RegisterResult(d, u.anim, t.1, false)
    else
      var f := Refreshing(d, u, live);
      RegisterResult(f.0, f.1, t.1, true)
  }

  /**
   * A due refresh: `Refreshed`, then the entity is registered at its
   * current location (when the grid accepts it) and the timer restarts.
   */
  function Refreshing(ld: LocationDataFragment, u: RegisterUnit, live: bool): (LocationDataFragment, AnimationFragment)
  {
    var f := Refreshed(ld, u.anim, u.location, u.moved);
    (f.0.(oldLocation := if live then u.location else DownVector, timeSince := u.draw), f.1)
  }

  /** What one register step does, field by field. */
  lemma RegisterEffects(u: RegisterUnit, live: bool, dt: real, r: RegisterResult)
    requires r == Registered(u, live, dt)
    // the move-target signal comes only from a trace that found the ground far away
    ensures r.signal == TraceRead(u.data, u.location.z, u.trace).1
    ensures r.signal <==> ReadsTrace(u.data, u.trace) && u.trace.Impact? &&
                          FarFromGround(u.data, u.location.z, u.trace.z)
    // the multiplier stays clamped
    ensures MultiInRange(u.data) || ReadsTrace(u.data, u.trace) ==> MultiInRange(r.data)
    // the refresh is due once the timer reaches the refresh period
    ensures r.due <==> TraceRead(u.data, u.location.z, u.trace).0.timeSince + dt >= u.data.baseRefresh
    // before that only the trace fields and the timer change
    ensures !r.due ==>
              r.anim == u.anim &&
              r.data.timeSince == TraceRead(u.data, u.location.z, u.trace).0.timeSince + dt &&
              r.data.(traceResultIn := u.data.traceResultIn, traceDistMulti := u.data.traceDistMulti,
                      timeSince := u.data.timeSince, newLocation := u.data.newLocation) == u.data
    // a refresh re-registers the entity, restarts the timer and asks for a new trace
    ensures r.due ==>
              r.data.oldLocation == (if live then u.location else DownVector) &&
              r.data.timeSince == u.draw &&
              r.data.exponentialMove == u.data.exponentialMove / 1.2 + u.moved &&
              (u.data.shouldRecheckNav ==> !r.data.traceResultIn)
    // the streak rules
    ensures r.due && r.data.exponentialMove > StallDistance ==> r.data.didNotMoveStreak == 0
    ensures r.due && r.data.exponentialMove <= StallDistance ==>
              r.data.didNotMoveStreak == (if u.anim.currentState == Idle then 0 else u.data.didNotMoveStreak + 1)
    ensures r.due && r.data.didNotMoveStreak >= 2 ==>
              r.anim == u.anim.(currentState := Idle) && r.data.walkToLocation == u.location
    ensures !(r.due && r.data.didNotMoveStreak >= 2) ==>
              r.anim == u.anim && r.data.walkToLocation == u.data.walkToLocation &&
              r.data.isAttackLocation == u.data.isAttackLocation
    ensures r.data.isAttackLocation != u.data.isAttackLocation ==>
              !r.data.isAttackLocation && u.data.prevWalkToLocationBeforeAttack != ZeroVector &&
              !WithinDist(u.data.prevWalkToLocationBeforeAttack, u.location, 200.0)
  {
    TraceReadEffects(u.data, u.location.z, u.trace, TraceRead(u.data, u.location.z, u.trace));
  }

  /**
   * An entity whose every refresh sees no movement while it walks is made
   * idle on its second stalled refresh: a streak of 1 becomes 2.
   */
  lemma SecondStallStops(u: RegisterUnit, live: bool, dt: real)
    requires u.data.didNotMoveStreak == 1 && u.anim.currentState != Idle
    requires Registered(u, live, dt).due && Registered(u, live, dt).data.exponentialMove <= StallDistance
    ensures Registered(u, live, dt).anim.currentState == Idle
    ensures Registered(u, live, dt).data.walkToLocation == u.location
  {
  }

  /**
   * The grid cells after one register step: a due step moves a live
   * entity from the cell of its last registered location to the cell of
   * its current one.
   */
  function Regridded(cells: Cells, u: RegisterUnit, live: bool, due: bool): Cells
  {
    if due && live then
      Added(Removed(cells, VectorToCell(u.data.oldLocation).0, VectorToCell(u.data.oldLocation).1, u.self),
            VectorToCell(u.location).0, VectorToCell(u.location).1, u.self)
    else cells
  }

  /** The trace branch of URegisterProcessor::Execute, field by field. */
  method ReadTrace(ld: LocationDataFragment, z: real, trace: TraceReply)
    returns (data: LocationDataFragment, signal: bool)
    ensures (data, signal) == TraceRead(ld, z, trace)
  {
    data, signal := ld, false;
    if trace != Pending && !data.traceResultIn && data.shouldRecheckNav {
      data := data.(traceResultIn := true);
      match trace
      case Impact(groundZ) =>
        if data.traceDistMulti != 0.0 && Abs(z - groundZ) >= 20.0 / data.traceDistMulti {
          data := data.(newLocation := true);
          signal := true;
          data := data.(timeSince := data.timeSince + TraceDelay(data.baseRefresh, data.traceDistMulti));
          data := data.(traceDistMulti := Clamp(data.traceDistMulti * 2.5, MinTraceMulti, MaxTraceMulti));
          assert TraceRead(ld, z, trace).0 == data;
        } else {
          data := data.(traceDistMulti := Clamp(data.traceDistMulti / 2.5, MinTraceMulti, MaxTraceMulti));
          assert TraceRead(ld, z, trace).0 == data;
        }
      case Missed =>
        data := data.(traceDistMulti := Clamp(data.traceDistMulti * 3.0, MinTraceMulti, MaxTraceMulti));
        data := data.(timeSince := data.timeSince + TraceDelay(data.baseRefresh, data.traceDistMulti));
        assert TraceRead(ld, z, trace).0 == data;
    }
  }

  /** The stall branch of URegisterProcessor::Execute, field by field. */
  method CheckStall(ld: LocationDataFragment, anim0: AnimationFragment, location: Vec3)
    returns (data: LocationDataFragment, anim: AnimationFragment)
    ensures (data, anim) == Stalled(ld, anim0, location)
    ensures data.oldLocation == ld.oldLocation
  {
    data, anim := ld, anim0;
    data := data.(didNotMoveStreak := data.didNotMoveStreak + 1);
    if anim.currentState == Idle {
      data := data.(didNotMoveStreak := 0);
    }
    if data.didNotMoveStreak >= 2 {
      if data.prevWalkToLocationBeforeAttack != ZeroVector &&
         !WithinDist(data.prevWalkToLocationBeforeAttack, location, 200.0) {
        data := data.(isAttackLocation := false, walkToLocation := data.prevWalkToLocationBeforeAttack);
      }
      anim := anim.(currentState := Idle);
      data := data.(walkToLocation := location);
    }
  }

  /** The refresh of URegisterProcessor::Execute up to the grid update, field by field. */
  method Refresh(ld: LocationDataFragment, anim0: AnimationFragment, location: Vec3, moved: real)
    returns (data: LocationDataFragment, anim: AnimationFragment)
    ensures (data, anim) == Refreshed(ld, anim0, location, moved)
    ensures data.oldLocation == ld.oldLocation
  {
    data, anim := ld, anim0;
    if data.shouldRecheckNav {
      data := data.(traceResultIn := false);
    }
    data := data.(exponentialMove := data.exponentialMove / 1.2);
    data := data.(exponentialMove := data.exponentialMove + moved);
    if data.exponentialMove <= StallDistance {
      data, anim := CheckStall(data, anim, location);
    } else {
      data := data.(didNotMoveStreak := 0);
    }
  }

  /** A due refresh of URegisterProcessor::Execute, ending with the grid update. */
  method RefreshDue(s: Subsystem, u: RegisterUnit, ld: LocationDataFragment)
    returns (data: LocationDataFragment, anim: AnimationFragment)
    requires ld.oldLocation == u.data.oldLocation
    modifies s.grid
    ensures (data, anim) == Refreshing(ld, u, u.self in s.entities)
    ensures s.grid.xCells == Regridded(old(s.grid.xCells), u, u.self in s.entities, true)
  {
    data, anim := Refresh(ld, u.anim, u.location, u.moved);
    var newOld := s.RegisterToGrid(u.location, u.self, data.oldLocation);
    data := data.(oldLocation := newOld);
    data := data.(timeSince := u.draw);
  }

  /** One entity of URegisterProcessor::Execute. */
  method RegisterEntity(s: Subsystem, u: RegisterUnit, dt: real)
    returns (data: LocationDataFragment, anim: AnimationFragment, signal: bool, due: bool)
    requires MovedMeasured(u)
    modifies s.grid
    ensures RegisterResult(data, anim, signal, due) == Registered(u, u.self in s.entities, dt)
    ensures s.grid.xCells == Regridded(old(s.grid.xCells), u, u.self in s.entities, due)
  {
    data, signal := ReadTrace(u.data, u.location.z, u.trace);
    anim := u.anim;
    data := data.(timeSince := data.timeSince + dt);
    due := data.timeSince >= data.baseRefresh;
    if !due {
      return;
    }
    data, anim := RefreshDue(s, u, data);
  }

  lemma SignalIsTraceSignal(u: RegisterUnit, live: bool, dt: real)
    ensures Registered(u, live, dt).signal == TraceRead(u.data, u.location.z, u.trace).1
  {
  }

  /** The entities of a chunk told that their move target changed, in chunk order. */
  function MoveSignals(units: seq<RegisterUnit>): seq<Handle>
  {
    if units == [] then []
    else
      var u := units[|units| - 1];
      MoveSignals(units[..|units| - 1]) + (if TraceRead(u.data, u.location.z, u.trace).1 then [u.self] else [])
  }

  /** An entity is signalled exactly when its trace found the ground far away. */
  lemma {:induction false} MoveSignalsMembers(units: seq<RegisterUnit>, h: Handle)
    ensures h in MoveSignals(units) <==>
              exists i :: 0 <= i < |units| && units[i].self == h &&
                          TraceRead(units[i].data, units[i].location.z, units[i].trace).1
  {
    if units != [] {
      var p := units[..|units| - 1];
      MoveSignalsMembers(p, h);
      if h in MoveSignals(p) {
        var i :| 0 <= i < |p| && p[i].self == h && TraceRead(p[i].data, p[i].location.z, p[i].trace).1;
        assert units[i] == p[i];
      }
      if exists i :: 0 <= i < |units| && units[i].self == h &&
                     TraceRead(units[i].data, units[i].location.z, units[i].trace).1 {
        var i :| 0 <= i < |units| && units[i].self == h &&
                 TraceRead(units[i].data, units[i].location.z, units[i].trace).1;
        if i < |p| {
          assert p[i] == units[i];
        }
      }
    }
  }

  /** The grid after the register steps of a chunk, taken in chunk order. */
  function RegriddedAll(cells: Cells, units: seq<RegisterUnit>, ents: Directory, dt: real): Cells
  {
    if units == [] then cells
    else
      var u := units[|units| - 1];
      Regridded(RegriddedAll(cells, units[..|units| - 1], ents, dt), u, u.self in ents,
                Registered(u, u.self in ents, dt).due)
  }

  /**
   * One chunk of URegisterProcessor::Execute: every entity takes its
   * register step with the frame time capped at `RegisterMaxDelta`, and
   * the move-target signal is sent once, for the collected entities, when
   * there are any.
   */
  method RegisterChunk(s: Subsystem, units: seq<RegisterUnit>, deltaTime: real)
    returns (results: seq<RegisterResult>, toSignal: seq<Handle>, sent: bool)
    requires forall i :: 0 <= i < |units| ==> MovedMeasured(units[i])
    modifies s.grid
    ensures |results| == |units|
    ensures forall i :: 0 <= i < |units| ==>
              results[i] == Registered(units[i], units[i].self in s.entities, Min(deltaTime, RegisterMaxDelta))
    ensures toSignal == MoveSignals(units)
    ensures sent <==> toSignal != []
    ensures s.grid.xCells == RegriddedAll(old(s.grid.xCells), units, s.entities, Min(deltaTime, RegisterMaxDelta))
  {
    var dt := Min(deltaTime, RegisterMaxDelta);
    results, toSignal := [], [];
    var i := 0;
    while i < |units|
      invariant 0 <= i <= |units|
      invariant |results| == i
      invariant forall j :: 0 <= j < i ==> results[j] == Registered(units[j], units[j].self in s.entities, dt)
      invariant toSignal == MoveSignals(units[..i])
      invariant s.grid.xCells == RegriddedAll(old(s.grid.xCells), units[..i], s.entities, dt)
    {
      var u := units[i];
      assert units[..i + 1][..i] == units[..i];
      var data, anim, signal, due := RegisterEntity(s, u, dt);
      SignalIsTraceSignal(u, u.self in s.entities, dt);
      results := results + [RegisterResult(data, anim, signal, due)];
      if signal {
        toSignal := toSignal + [u.self];
      }
      i := i + 1;
    }
    assert units[..i] == units;
    sent := |toSignal| > 0;
  }

  // ----- UAbilityProcessor -----

  /** The ability processor never advances the attack clock by more than this per frame. */
  const AttackMaxDelta: real := 0.1

  /**
   * The attack fields of FAbilityDataFragment as the ability processor
   * reads and writes them: whether an attack is under way, how long it has
   * run, how many hits it has dealt, its target and the point it aims at,
   * and the ability it uses (CurrentAbility).
   */
  datatype AttackState = AttackState(
    isAttacking: bool,
    timeInAttack: real,
    timesHit: int,
    targetEntity: Handle,
    targetLocation: Vec3,
    ability: AbilityData)

  /** The attack ends: not attacking, the clock and the hit count back at 0. */
  function Reset(a: AttackState): (r: AttackState)
  {
    a.(isAttacking := false, timeInAttack := 0.0, timesHit := 0)
  }

  /** One entity of a chunk, as the ability processor sees it. */
  datatype AttackUnit = AttackUnit(
    self: Handle,
    location: Vec3,
    team: int,
    closestEnemies: seq<Handle>,
    anim: AnimationFragment,
    attack: AttackState)

  /**
   * The fragments the processor reads unchecked exist: the target's
   * transform when the target is live, and the transform and agent radius
   * of the closest enemy when that one is live.
   */
  predicate CanAim(ents: Directory, u: AttackUnit)
  {
    (u.attack.targetEntity in ents ==> ents[u.attack.targetEntity].location.Some?) &&
    (|u.closestEnemies| > 0 && u.closestEnemies[0] in ents ==>
       ents[u.closestEnemies[0]].location.Some? && ents[u.closestEnemies[0]].agentRadius.Some?)
  }

  /** The outcome of finding the target: the attack state, the target's radius, and whether one was found. */
  datatype Aim = Aim(attack: AttackState, enemyRadius: real, found: bool)

  /**
   * Finding the target: a live target is aimed at where it stands; failing
   * that, the closest enemy becomes the target and is aimed at from the
   * attacker's side, twice its radius away along the direction to it
   * (`safeNormal` is FVector::GetSafeNormal); with no enemies, or a closest
   * enemy that is gone, nothing is found.
   */
  function TakeAim(ents: Directory, u: AttackUnit, safeNormal: Vec3 -> Vec3): (r: Aim)
    requires CanAim(ents, u)
    ensures r.found ==> r.attack.targetEntity in ents && ents[r.attack.targetEntity].location.Some?
    ensures u.attack.targetEntity in ents ==> r.found && r.attack.targetEntity == u.attack.targetEntity
    ensures u.attack.targetEntity !in ents ==>
              (r.found <==> |u.closestEnemies| > 0 && u.closestEnemies[0] in ents) &&
              (|u.closestEnemies| > 0 ==> r.attack.targetEntity == u.closestEnemies[0]) &&
              (|u.closestEnemies| == 0 ==> r.attack == u.attack)
    ensures r.attack.(targetEntity := u.attack.targetEntity, targetLocation := u.attack.targetLocation) == u.attack
  {
    var a := u.attack;
    if a.targetEntity in ents then Aim(a.(targetLocation := LocationOf(ents, a.targetEntity)), 0.0, true)
    else if |u.closestEnemies| <= 0 then Aim(a, 0.0, false)
    else
      var e := u.closestEnemies[0];
      if e in ents then
        var radius := ents[e].agentRadius.value;
        var dir := safeNormal(Minus(LocationOf(ents, e), u.location));
        Aim(a.(targetEntity := e, targetLocation := Plus(u.location, Scaled(dir, radius * 2.0))), radius, true)
      else Aim(a.(targetEntity := e), 0.0, false)
  }

  /** The aimed point is closer than 1.7 times the ability's range plus twice the target's radius. */
  predicate InReach(aim: Aim, u: AttackUnit)
  {
    CloserThan(aim.attack.targetLocation, u.location, u.attack.ability.range * 1.7 + aim.enemyRadius * 2.0)
  }

  /**
   * The damage call a hit makes: an area hit around the target, a hit on
   * the target alone, or a projectile from above the attacker to the
   * target (AddProjectile).
   */
  datatype DamageCall = NoDamage | AreaHit(center: Vec3) | TargetHit(target: Handle) | Projectile(from: Vec3, to: Vec3)

  /**
   * The damage call of the cycle's hit, chosen by the ability's skill, at
   * the target's current location (the attacker's own when the target is
   * gone); `None` for an ability whose skill is missing or unknown.
   */
  function HitCall(ents: Directory, u: AttackUnit, c: AttackState): Option<DamageCall>
    requires c.targetEntity in ents ==> ents[c.targetEntity].location.Some?
  {
    var enemyLocation := if c.targetEntity in ents then LocationOf(ents, c.targetEntity) else u.location;
    match c.ability.skill
    case NoSkillType => Option.None
    case OtherSkillType => Option.None
    case Melee(area) => Some(if area then AreaHit(enemyLocation) else TargetHit(c.targetEntity))
    case Ranged => Some(Projectile(Plus(u.location, Scaled(UpVector, 180.0)), enemyLocation))
    case Cast => Some(NoDamage)
    case Gather => Some(NoDamage)
  }

  /**
   * What one attack step leaves behind: the attack state and animation,
   * whether the entity is signalled, whether this step dealt the cycle's
   * hit, the damage call it made and whether it queued the ability's
   * effect.
   */
  datatype AttackResult = AttackResult(
    attack: AttackState, anim: AnimationFragment, signal: bool, hit: bool, damage: DamageCall, spawn: bool)

  /** The end of a step past the hit time: the attack finishes once the recovery time is over too. */
  function Recovered(a: AttackState, anim: AnimationFragment, hit: bool, damage: DamageCall): AttackResult
  {
    if a.timeInAttack >= a.ability.timeUntilHit + a.ability.recoveryTime then
      AttackResult(Reset(a), anim.(currentState := Idle), true, hit, damage, hit)
    else
      AttackResult(a, anim, false, hit, damage, hit)
  }

  /** The attack step of one entity with frame time `dt`. */
  function Attack(ents: Directory, u: AttackUnit, dt: real, safeNormal: Vec3 -> Vec3): AttackResult
    requires CanAim(ents, u)
  {
    var a := u.attack;
    if !a.isAttacking then AttackResult(a.(timeInAttack := 0.0), u.anim, false, false, NoDamage, false)
    else if u.self !in ents then AttackResult(a, u.anim, false, false, NoDamage, false)
    else
      var aim := TakeAim(ents, u, safeNormal);
      if !aim.found || !InReach(aim, u) then AttackResult(Reset(aim.attack), u.anim, true, false, NoDamage, false)
      else
        var b := aim.attack.(timeInAttack := aim.attack.timeInAttack + dt);
        if b.timeInAttack <= b.ability.timeUntilHit then AttackResult(b, u.anim, false, false, NoDamage, false)
        else if b.timesHit >= 1 then Recovered(b, u.anim, false, NoDamage)
        else
          var c := b.(timesHit := b.timesHit + 1);
          var call := HitCall(ents, u, c);
          if call.None? then AttackResult(Reset(c), u.anim, true, true, NoDamage, false)
          else Recovered(c, u.anim, true, call.value)
  }

  /**
   * The step ends in recovery: an attack under way, by a live entity, with
   * a target found and in reach, whose clock passes the hit time and
   * reaches the hit time plus the recovery time, and which did not stop on
   * this cycle's hit for want of a known skill.
   */
  predicate Recovers(ents: Directory, u: AttackUnit, dt: real, safeNormal: Vec3 -> Vec3)
    requires CanAim(ents, u)
  {
    var ab := u.attack.ability;
    var t := u.attack.timeInAttack + dt;
    && u.attack.isAttacking && u.self in ents
    && TakeAim(ents, u, safeNormal).found && InReach(TakeAim(ents, u, safeNormal), u)
    && t > ab.timeUntilHit && t >= ab.timeUntilHit + ab.recoveryTime
    && !(u.attack.timesHit < 1 && (ab.skill.NoSkillType? || ab.skill.OtherSkillType?))
  }

  /**
   * What one attack step does:
   * - an entity that is not attacking only has its clock reset;
   * - the entity is signalled exactly when an attack under way ends, and
   *   an ended attack has its clock and hit count reset;
   * - a hit happens only once the clock has passed the hit time, and only
   *   on the cycle's first hit, so a cycle deals at most one;
   * - an attack that goes on has advanced its clock by `dt`, counted its
   *   hit, and still has a live target within reach;
   * - the damage call and the queued effect follow the ability's skill;
   * - the animation becomes idle exactly on a finished recovery and is
   *   left alone on every other path, cancels included.
   */
  lemma AttackEffects(ents: Directory, u: AttackUnit, dt: real, safeNormal: Vec3 -> Vec3, r: AttackResult)
    requires CanAim(ents, u) && r == Attack(ents, u, dt, safeNormal)
    ensures !u.attack.isAttacking ==>
              r == AttackResult(u.attack.(timeInAttack := 0.0), u.anim, false, false, NoDamage, false)
    ensures r.signal <==> u.attack.isAttacking && u.self in ents && !r.attack.isAttacking
    ensures r.signal ==> r.attack == Reset(r.attack)
    ensures r.hit ==> u.attack.isAttacking && u.attack.timesHit < 1 &&
                      u.attack.timeInAttack + dt > u.attack.ability.timeUntilHit
    ensures 0 <= u.attack.timesHit <= 1 ==> 0 <= r.attack.timesHit <= 1
    ensures u.attack.isAttacking && u.self in ents && r.attack.isAttacking ==>
              r.attack.timeInAttack == u.attack.timeInAttack + dt &&
              r.attack.timesHit == u.attack.timesHit + (if r.hit then 1 else 0) &&
              r.attack.targetEntity in ents &&
              InReach(TakeAim(ents, u, safeNormal), u) &&
              (r.attack.timeInAttack > u.attack.ability.timeUntilHit ==>
                 r.attack.timeInAttack < u.attack.ability.timeUntilHit + u.attack.ability.recoveryTime)
    ensures r.attack.ability == u.attack.ability
    ensures r.damage != NoDamage ==> r.hit
    ensures r.spawn <==> r.hit && !u.attack.ability.skill.NoSkillType? && !u.attack.ability.skill.OtherSkillType?
    ensures r.damage.AreaHit? <==> r.hit && u.attack.ability.skill == Melee(true)
    ensures r.damage.AreaHit? ==> r.attack.targetEntity in ents &&
                                  r.damage.center == LocationOf(ents, r.attack.targetEntity)
    ensures r.damage.TargetHit? <==> r.hit && u.attack.ability.skill == Melee(false)
    ensures r.damage.TargetHit? ==> r.damage.target == r.attack.targetEntity && r.attack.targetEntity in ents
    ensures Recovers(ents, u, dt, safeNormal) ==>
              r.signal && r.hit == r.spawn && r.anim == u.anim.(currentState := Idle)
    ensures !Recovers(ents, u, dt, safeNormal) ==> r.anim == u.anim
  {
  }

  /**
   * At most one hit per attack cycle: after a step that hits and keeps the
   * attack going, the next step of the same attack, whatever the frame
   * time, the directory or the nearby enemies, does not hit again.
   */
  lemma OneHitPerCycle(ents: Directory, u: AttackUnit, dt: real, safeNormal: Vec3 -> Vec3,
                       ents2: Directory, u2: AttackUnit, dt2: real)
    requires CanAim(ents, u) && 0 <= u.attack.timesHit
    requires Attack(ents, u, dt, safeNormal).hit && Attack(ents, u, dt, safeNormal).attack.isAttacking
    requires u2.attack == Attack(ents, u, dt, safeNormal).attack && CanAim(ents2, u2)
    ensures !Attack(ents2, u2, dt2, safeNormal).hit
  {
    AttackEffects(ents, u, dt, safeNormal, Attack(ents, u, dt, safeNormal));
    AttackEffects(ents2, u2, dt2, safeNormal, Attack(ents2, u2, dt2, safeNormal));
  }

  /** Moving a point by k times a vector moves it k times the vector's length. */
  lemma ScaledDistSq(p: Vec3, n: Vec3, k: real)
    ensures DistSq(Plus(p, Scaled(n, k)), p) == (k * k) * DistSq(n, ZeroVector)
  {
    var m := Plus(p, Scaled(n, k));
    assert m.x - p.x == n.x * k && m.y - p.y == n.y * k && m.z - p.z == n.z * k;
    assert (n.x * k) * (n.x * k) == (k * k) * (n.x * n.x);
    assert (n.y * k) * (n.y * k) == (k * k) * (n.y * n.y);
    assert (n.z * k) * (n.z * k) == (k * k) * (n.z * n.z);
  }

  /** Twice a radius stays short of a positive range's reach plus that same distance. */
  lemma ReachBeyondRadius(range: real, radius: real)
    requires range > 0.0 && radius >= 0.0
    ensures 0.0 <= radius * 2.0 < range * 1.7 + radius * 2.0
  {
  }

  /**
   * Retargeting never puts the new target out of reach: the aimed point is
   * twice the target's radius from the attacker, less than the reach
   * whenever the range is positive, given that the normalised direction
   * has length at most 1 (GetSafeNormal returns a unit vector or zero).
   */
  lemma RetargetInReach(ents: Directory, u: AttackUnit, safeNormal: Vec3 -> Vec3)
    requires CanAim(ents, u)
    requires u.attack.targetEntity !in ents && |u.closestEnemies| > 0 && u.closestEnemies[0] in ents
    requires ents[u.closestEnemies[0]].agentRadius.value >= 0.0 && u.attack.ability.range > 0.0
    requires DistSq(safeNormal(Minus(LocationOf(ents, u.closestEnemies[0]), u.location)), ZeroVector) <= 1.0
    ensures TakeAim(ents, u, safeNormal).found && InReach(TakeAim(ents, u, safeNormal), u)
  {
    var e := u.closestEnemies[0];
    var radius := ents[e].agentRadius.value;
    var n := safeNormal(Minus(LocationOf(ents, e), u.location));
    var aim := TakeAim(ents, u, safeNormal);
    var k := radius * 2.0;
    var reach := u.attack.ability.range * 1.7 + k;
    var q := DistSq(n, ZeroVector);
    assert aim.attack.targetLocation == Plus(u.location, Scaled(n, k));
    ScaledDistSq(u.location, n, k);
    assert (k * k) * q <= k * k;
    ReachBeyondRadius(u.attack.ability.range, radius);
    StrictSquares(k, reach);
    assert (k * k) * q < reach * reach;
    assert aim.enemyRadius == radius;
  }

  /**
   * The directory after a damage call: the subsystem's area hit around the
   * center (DealDamageAoe with the area of effect as radius, the kill
   * counter starting at 0), or its single hit on the target
   * (DealDamageToEnemy); a projectile and no call change nothing here.
   */
  function Struck(ents: Directory, cells: Cells, team: int, ability: AbilityData, call: DamageCall): Directory
  {
    match call
    case AreaHit(center) =>
      Aoe(AoeState(ents, ability.damage, [], 0),
          Around(cells, VectorToCell(center).0, VectorToCell(center).1, TruncToInt(ability.areaOfEffect)),
          center, ability.areaOfEffect, Normal, team).ents
    case TargetHit(t) =>
      if FromHandle(t) != NoEntity && t in ents && ents[t].defence.Some? then
        ents[t := WithHp(ents[t], AfterHit(ents[t].defence.value.hp,
                                           ability.damage * Multiplier(Normal, ents[t].defence.value.unitArmor)))]
      else ents
    case _ => ents
  }

  /** Finding the target through the subsystem, as UAbilityProcessor::Execute does. */
  method AimAt(s: Subsystem, u: AttackUnit, safeNormal: Vec3 -> Vec3) returns (aim: Aim)
    requires CanAim(s.entities, u)
    ensures aim == TakeAim(s.entities, u, safeNormal)
  {
    var a := u.attack;
    if a.targetEntity in s.entities {
      a := a.(targetLocation := s.GetEntityLocation(a.targetEntity));
      return Aim(a, 0.0, true);
    }
    if |u.closestEnemies| <= 0 {
      return Aim(a, 0.0, false);
    }
    a := a.(targetEntity := u.closestEnemies[0]);
    if u.closestEnemies[0] in s.entities {
      var radius := s.entities[u.closestEnemies[0]].agentRadius.value;
      var enemyLocation := s.GetEntityLocation(u.closestEnemies[0]);
      a := a.(targetLocation := Plus(u.location, Scaled(safeNormal(Minus(enemyLocation, u.location)), radius * 2.0)));
      return Aim(a, radius, true);
    }
    return Aim(a, 0.0, false);
  }

  /**
   * The hit of UAbilityProcessor::Execute: the damage call the skill asks
   * for, then the ability's effect queued at the aimed point. Nothing
   * happens for an ability without a usable skill.
   */
  method Hit(s: Subsystem, u: AttackUnit, c: AttackState) returns (call: Option<DamageCall>)
    requires c.targetEntity in s.entities ==> s.entities[c.targetEntity].location.Some?
    modifies s`entities, s`abilitySpawning
    ensures call == HitCall(old(s.entities), u, c)
    ensures call.None? ==> s.entities == old(s.entities) && s.abilitySpawning == old(s.abilitySpawning)
    ensures call.Some? ==>
              s.entities == Struck(old(s.entities), s.grid.xCells, u.team, c.ability, call.value) &&
              s.abilitySpawning == old(s.abilitySpawning) + [SpawningData(c.ability, c.targetLocation, 0.0)]
  {
    var enemyLocation := if c.targetEntity in s.entities then s.GetEntityLocation(c.targetEntity) else u.location;
    match c.ability.skill {
    case NoSkillType =>
      return Option.None;
    case OtherSkillType =>
      return Option.None;
    case Melee(area) =>
      if area {
        var _, _, _ := s.DealDamageAoe(enemyLocation, c.ability.areaOfEffect, c.ability.damage, Normal, u.team, 0);
        call := Some(AreaHit(enemyLocation));
      } else {
        var _ := s.DealDamageToEnemy(FromHandle(c.targetEntity), c.ability.damage, Normal);
        call := Some(TargetHit(c.targetEntity));
      }
    case Ranged =>
      // AddProjectile launches a projectile; projectiles are not part of this model
      call := Some(Projectile(Plus(u.location, Scaled(UpVector, 180.0)), enemyLocation));
    case Cast =>
      call := Some(NoDamage);
    case Gather =>
      call := Some(NoDamage);
    }
    s.SpawnAbilityDataDeferred(c.ability, c.targetLocation, 0.0);
  }

  /** One entity of UAbilityProcessor::Execute. */
  method AttackEntity(s: Subsystem, u: AttackUnit, dt: real, safeNormal: Vec3 -> Vec3)
    returns (attack: AttackState, anim: AnimationFragment, signal: bool)
    requires CanAim(s.entities, u)
    modifies s`entities, s`abilitySpawning
    ensures var r := Attack(old(s.entities), u, dt, safeNormal);
            attack == r.attack && anim == r.anim && signal == r.signal &&
            s.entities == Struck(old(s.entities), s.grid.xCells, u.team, u.attack.ability, r.damage) &&
            s.abilitySpawning == old(s.abilitySpawning) +
                                 (if r.spawn then [SpawningData(u.attack.ability, r.attack.targetLocation, 0.0)] else [])
  {
    attack, anim, signal := u.attack, u.anim, false;
    if !attack.isAttacking {
      attack := attack.(timeInAttack := 0.0);
      return;
    }
    if u.self !in s.entities {
      return;
    }
    var aim := AimAt(s, u, safeNormal);
    attack := aim.attack;
    if !aim.found {
      attack := Reset(attack);
      signal := true;
      return;
    }
    if !CloserThan(attack.targetLocation, u.location, attack.ability.range * 1.7 + aim.enemyRadius * 2.0) {
      attack := Reset(attack);
      signal := true;
      return;
    }
    attack := attack.(timeInAttack := attack.timeInAttack + dt);
    if attack.timeInAttack <= attack.ability.timeUntilHit {
      return;
    }
    if attack.timesHit < 1 {
      attack := attack.(timesHit := attack.timesHit + 1);
      var call := Hit(s, u, attack);
      if call.None? {
        attack := Reset(attack);
        signal := true;
        return;
      }
    }
    if attack.timeInAttack >= attack.ability.timeUntilHit + attack.ability.recoveryTime {
      anim := anim.(currentState := Idle);
      attack := Reset(attack);
      signal := true;
    }
  }

  /** A hit changes hit points and nothing else, whatever the skill. */
  lemma StruckOnlyHp(ents: Directory, cells: Cells, team: int, ability: AbilityData, call: DamageCall)
    ensures SameButHp(ents, Struck(ents, cells, team, ability, call))
  {
    match call
    case AreaHit(center) =>
      AoeOnlyHp(AoeState(ents, ability.damage, [], 0),
                Around(cells, VectorToCell(center).0, VectorToCell(center).1, TruncToInt(ability.areaOfEffect)),
                center, ability.areaOfEffect, Normal, team);
    case _ =>
  }

  /** Finding the target does not look at hit points. */
  lemma TakeAimIgnoresHp(e1: Directory, e2: Directory, u: AttackUnit, safeNormal: Vec3 -> Vec3)
    requires SameButHp(e1, e2)
    ensures CanAim(e1, u) == CanAim(e2, u)
    ensures CanAim(e1, u) ==> TakeAim(e1, u, safeNormal) == TakeAim(e2, u, safeNormal)
  {
  }

  /** Neither does choosing the damage call. */
  lemma HitCallIgnoresHp(e1: Directory, e2: Directory, u: AttackUnit, c: AttackState)
    requires SameButHp(e1, e2)
    requires c.targetEntity in e1 ==> e1[c.targetEntity].location.Some?
    ensures HitCall(e1, u, c) == HitCall(e2, u, c)
  {
  }

  /**
   * The attack step does not look at hit points: the entities of a chunk
   * all decide on the directory as it was before the chunk, although the
   * hits of the ones before them have already landed.
   */
  lemma AttackIgnoresHp(e1: Directory, e2: Directory, u: AttackUnit, dt: real, safeNormal: Vec3 -> Vec3)
    requires SameButHp(e1, e2)
    ensures CanAim(e1, u) == CanAim(e2, u)
    ensures CanAim(e1, u) ==> Attack(e1, u, dt, safeNormal) == Attack(e2, u, dt, safeNormal)
  {
    TakeAimIgnoresHp(e1, e2, u, safeNormal);
    if CanAim(e1, u) {
      var aim := TakeAim(e1, u, safeNormal);
      var c := aim.attack.(timeInAttack := aim.attack.timeInAttack + dt, timesHit := aim.attack.timesHit + 1);
      if aim.found {
        HitCallIgnoresHp(e1, e2, u, c);
      }
      AttackSameInputs(e1, e2, u, dt, safeNormal);
    }
  }

  /** Two directories on which the attack step's lookups agree give the same step. */
  lemma AttackSameInputs(e1: Directory, e2: Directory, u: AttackUnit, dt: real, safeNormal: Vec3 -> Vec3)
    requires CanAim(e1, u) && CanAim(e2, u)
    requires u.self in e1 <==> u.self in e2
    requires TakeAim(e1, u, safeNormal) == TakeAim(e2, u, safeNormal)
    requires var aim := TakeAim(e1, u, safeNormal);
             var c := aim.attack.(timeInAttack := aim.attack.timeInAttack + dt, timesHit := aim.attack.timesHit + 1);
             aim.found ==> HitCall(e1, u, c) == HitCall(e2, u, c)
    ensures Attack(e1, u, dt, safeNormal) == Attack(e2, u, dt, safeNormal)
  {
  }

  /** The entities of a chunk whose attack ended, in chunk order. */
  function AttackSignals(ents: Directory, units: seq<AttackUnit>, dt: real, safeNormal: Vec3 -> Vec3): seq<Handle>
    requires forall u :: u in units ==> CanAim(ents, u)
  {
    if units == [] then []
    else
      var prev := AttackSignals(ents, units[..|units| - 1], dt, safeNormal);
      var u := units[|units| - 1];
      if Attack(ents, u, dt, safeNormal).signal then prev + [u.self] else prev
  }

  /** The ability effects a chunk queues, in chunk order. */
  function AttackSpawns(ents: Directory, units: seq<AttackUnit>, dt: real, safeNormal: Vec3 -> Vec3): seq<SpawningData>
    requires forall u :: u in units ==> CanAim(ents, u)
  {
    if units == [] then []
    else
      var prev := AttackSpawns(ents, units[..|units| - 1], dt, safeNormal);
      var u := units[|units| - 1];
      var r := Attack(ents, u, dt, safeNormal);
      if r.spawn then prev + [SpawningData(u.attack.ability, r.attack.targetLocation, 0.0)] else prev
  }

  /** The directory after a chunk's hits, each landing on what the ones before left. */
  function StruckAll(ents: Directory, cells: Cells, units: seq<AttackUnit>, dt: real, safeNormal: Vec3 -> Vec3): Directory
    requires forall u :: u in units ==> CanAim(ents, u)
  {
    if units == [] then ents
    else
      var u := units[|units| - 1];
      Struck(StruckAll(ents, cells, units[..|units| - 1], dt, safeNormal), cells, u.team, u.attack.ability,
             Attack(ents, u, dt, safeNormal).damage)
  }

  /** A chunk's hits change hit points and nothing else. */
  lemma {:induction false} StruckAllOnlyHp(ents: Directory, cells: Cells, units: seq<AttackUnit>, dt: real,
                                           safeNormal: Vec3 -> Vec3)
    requires forall u :: u in units ==> CanAim(ents, u)
    ensures SameButHp(ents, StruckAll(ents, cells, units, dt, safeNormal))
  {
    if units != [] {
      var u := units[|units| - 1];
      var prev := StruckAll(ents, cells, units[..|units| - 1], dt, safeNormal);
      StruckAllOnlyHp(ents, cells, units[..|units| - 1], dt, safeNormal);
      StruckOnlyHp(prev, cells, u.team, u.attack.ability, Attack(ents, u, dt, safeNormal).damage);
      SameButHpTrans(ents, prev, StruckAll(ents, cells, units, dt, safeNormal));
    }
  }

  /** An entity is signalled exactly when its attack ended in this frame. */
  lemma {:induction false} AttackSignalsMembers(ents: Directory, units: seq<AttackUnit>, dt: real,
                                               safeNormal: Vec3 -> Vec3, h: Handle)
    requires forall u :: u in units ==> CanAim(ents, u)
    ensures h in AttackSignals(ents, units, dt, safeNormal) <==>
            exists i :: 0 <= i < |units| && units[i].self == h && Attack(ents, units[i], dt, safeNormal).signal
  {
    if units != [] {
      var init := units[..|units| - 1];
      AttackSignalsMembers(ents, init, dt, safeNormal, h);
      if exists i :: 0 <= i < |units| && units[i].self == h && Attack(ents, units[i], dt, safeNormal).signal {
        var i :| 0 <= i < |units| && units[i].self == h && Attack(ents, units[i], dt, safeNormal).signal;
        if i < |init| {
          assert init[i] == units[i];
        }
      }
      if exists i :: 0 <= i < |init| && init[i].self == h && Attack(ents, init[i], dt, safeNormal).signal {
        var i :| 0 <= i < |init| && init[i].self == h && Attack(ents, init[i], dt, safeNormal).signal;
        assert units[i] == init[i];
      }
    }
  }

  /**
   * One chunk of UAbilityProcessor::Execute: every entity takes its attack
   * step with the frame time capped at AttackMaxDelta; the ones whose
   * attack ended are signalled once for the chunk.
   */
  method AttackChunk(s: Subsystem, units: seq<AttackUnit>, deltaTime: real, safeNormal: Vec3 -> Vec3)
    returns (results: seq<(AttackState, AnimationFragment)>, toSignal: seq<Handle>, sent: bool)
    requires forall u :: u in units ==> CanAim(s.entities, u)
    modifies s`entities, s`abilitySpawning
    ensures |results| == |units|
    ensures forall i :: 0 <= i < |units| ==>
              var r := Attack(old(s.entities), units[i], Min(deltaTime, AttackMaxDelta), safeNormal);
              results[i] == (r.attack, r.anim)
    ensures toSignal == AttackSignals(old(s.entities), units, Min(deltaTime, AttackMaxDelta), safeNormal)
    ensures sent <==> |toSignal| >= 1
    ensures s.entities == StruckAll(old(s.entities), s.grid.xCells, units, Min(deltaTime, AttackMaxDelta), safeNormal)
    ensures s.abilitySpawning == old(s.abilitySpawning) +
                                 AttackSpawns(old(s.entities), units, Min(deltaTime, AttackMaxDelta), safeNormal)
  {
    var dt := Min(deltaTime, AttackMaxDelta);
    ghost var ents0 := s.entities;
    ghost var spawning0 := s.abilitySpawning;
    results, toSignal := [], [];
    var i := 0;
    while i < |units|
      invariant 0 <= i <= |units|
      invariant |results| == i
      invariant forall k :: 0 <= k < i ==>
                  results[k] == (Attack(ents0, units[k], dt, safeNormal).attack, Attack(ents0, units[k], dt, safeNormal).anim)
      invariant toSignal == AttackSignals(ents0, units[..i], dt, safeNormal)
      invariant s.entities == StruckAll(ents0, s.grid.xCells, units[..i], dt, safeNormal)
      invariant s.abilitySpawning == spawning0 + AttackSpawns(ents0, units[..i], dt, safeNormal)
    {
      assert units[..i + 1][..i] == units[..i];
      StruckAllOnlyHp(ents0, s.grid.xCells, units[..i], dt, safeNormal);
      AttackIgnoresHp(ents0, s.entities, units[i], dt, safeNormal);
      var attack, anim, signal := AttackEntity(s, units[i], dt, safeNormal);
      results := results + [(attack, anim)];
      if signal {
        toSignal := toSignal + [units[i].self];
      }
      i := i + 1;
    }
    assert units[..i] == units;
    sent := |toSignal| >= 1;
  }
}
