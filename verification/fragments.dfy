/**
 * The per-entity data records (Mass fragments) and their validation.
 *
 * Every fragment offers `GetValidated`, which the traits call when a unit
 * template is built: it returns a copy whose designer-editable fields are
 * clamped into their legal ranges. Each `GetValidated` below is stated as a
 * projection: its result satisfies the fragment's `Valid` predicate, an
 * already valid fragment comes back unchanged, the fields it does not clamp
 * are copied, and a field below its bound is raised to exactly the bound.
 * Idempotence of validation follows (`ValidationIsIdempotent`).
 */
module SmbFragments {
  import opened SmbCommon

  /** KINDA_SMALL_NUMBER. */
  const KindaSmallNumber: real := 0.0001

  /** FResourceFragment: what an entity carries and how fast it gathers. */
  datatype ResourceFragment = ResourceFragment(
    bonusMap: map<EProcessable, real>,
    carrying: map<EProcessable, int>,
    timeSinceGatherStart: real)
  {
    predicate Valid() { timeSinceGatherStart >= 0.0 }

    function GetValidated(): (v: ResourceFragment)
      ensures v.Valid()
      ensures Valid() ==> v == this
      ensures !Valid() ==> v.timeSinceGatherStart == 0.0
      ensures v.bonusMap == bonusMap && v.carrying == carrying
    {
      this.(timeSinceGatherStart := Max(timeSinceGatherStart, 0.0))
    }
  }

  const DefaultResource: ResourceFragment := ResourceFragment(map[], map[], 0.0)

  /**
   * FAnimationFragment, reduced to its state machine and its per-animation
   * numbers. The animation name, the actor offset, PreviousAnimationFrame,
   * PrevStart and PrevEnd are left out: only the animation processor reads
   * or writes them, to place the actor and blend vertex-animation frames,
   * and that processor is presentation code outside this model.
   */
  datatype AnimationFragment = AnimationFragment(
    currentState: EAnimationState,
    previousState: EAnimationState,
    animationUnitScale: real,
    animOffsetTime: real,
    timeInCurrentAnimation: real,
    lerpAlpha: real,
    blendSpeed: real,
    currentAnimationFrame: real,
    animationSpeed: real)
  {
    predicate Valid()
    {
      animationUnitScale >= KindaSmallNumber && animOffsetTime >= KindaSmallNumber
      && animationSpeed >= KindaSmallNumber
    }

    function GetValidated(): (v: AnimationFragment)
      ensures v.Valid()
      ensures Valid() ==> v == this
      ensures animationUnitScale < KindaSmallNumber ==> v.animationUnitScale == KindaSmallNumber
      ensures animOffsetTime < KindaSmallNumber ==> v.animOffsetTime == KindaSmallNumber
      ensures animationSpeed < KindaSmallNumber ==> v.animationSpeed == KindaSmallNumber
      ensures v.currentState == currentState && v.previousState == previousState
      ensures v.timeInCurrentAnimation == timeInCurrentAnimation && v.lerpAlpha == lerpAlpha
      ensures v.blendSpeed == blendSpeed && v.currentAnimationFrame == currentAnimationFrame
    {
      this.(animationUnitScale := Max(animationUnitScale, KindaSmallNumber),
            animOffsetTime := Max(animOffsetTime, KindaSmallNumber),
            animationSpeed := Max(animationSpeed, KindaSmallNumber))
    }
  }

  const DefaultAnimation: AnimationFragment :=
    AnimationFragment(Idle, Idle, 1.0, 0.0, 0.0, 0.0, 5.0, 0.0, 1.0)

  /**
   * EArmorType. The weakness each armour has is decided by the damage code
   * (`SmbDamage.Weakness`), not by the tooltips attached to this enum.
   */
  datatype EArmorType = HeavyArmor | LightArmor | MediumArmor | None

  /** EDamageType. */
  datatype EDamageType = Normal | Piercing | Slashing | Blunt

  /** FDefenceFragment: health and armour. */
  datatype DefenceFragment = DefenceFragment(maxHP: real, hp: real, unitArmor: EArmorType)
  {
    predicate Valid() { maxHP >= KindaSmallNumber && hp >= KindaSmallNumber }

    function GetValidated(): (v: DefenceFragment)
      ensures v.Valid()
      ensures Valid() ==> v == this
      ensures maxHP < KindaSmallNumber ==> v.maxHP == KindaSmallNumber
      ensures hp < KindaSmallNumber ==> v.hp == KindaSmallNumber
      ensures v.unitArmor == unitArmor
    {
      this.(maxHP := Max(maxHP, KindaSmallNumber), hp := Max(hp, KindaSmallNumber))
    }
  }

  const DefaultDefence: DefenceFragment := DefenceFragment(20.0, 20.0, MediumArmor)

  /** FTeamFragment; team -1 is "no team". */
  datatype TeamFragment = TeamFragment(teamID: int, isSelected: bool)
  {
    predicate Valid() { teamID >= -1 }

    function GetValidated(): (v: TeamFragment)
      ensures v.Valid()
      ensures Valid() ==> v == this
      ensures teamID < -1 ==> v.teamID == -1
      ensures v.isSelected == isSelected
    {
      this.(teamID := if teamID < -1 then -1 else teamID)
    }
  }

  const DefaultTeam: TeamFragment := TeamFragment(0, false)

  /** FAttackFragment, the legacy attack record. */
  datatype AttackFragment = AttackFragment(
    attackDamage: real,
    animationDelayUntilDamage: real,
    attackRate: real,
    attackRecoveryTime: real,
    damageInstances: int,
    curDamageInstance: int,
    timeLeftToAttack: real,
    currentTimeIntoTheAttack: real,
    attackRange: real,
    damageType: EDamageType)
  {
    predicate Valid()
    {
      attackDamage >= KindaSmallNumber && attackRate >= KindaSmallNumber
      && attackRange >= KindaSmallNumber && animationDelayUntilDamage >= KindaSmallNumber
      && attackRecoveryTime >= KindaSmallNumber
    }

    function GetValidated(): (v: AttackFragment)
      ensures v.Valid()
      ensures Valid() ==> v == this
      ensures attackDamage < KindaSmallNumber ==> v.attackDamage == KindaSmallNumber
      ensures attackRate < KindaSmallNumber ==> v.attackRate == KindaSmallNumber
      ensures attackRange < KindaSmallNumber ==> v.attackRange == KindaSmallNumber
      ensures animationDelayUntilDamage < KindaSmallNumber ==> v.animationDelayUntilDamage == KindaSmallNumber
      ensures attackRecoveryTime < KindaSmallNumber ==> v.attackRecoveryTime == KindaSmallNumber
      ensures v.damageInstances == damageInstances && v.curDamageInstance == curDamageInstance
      ensures v.timeLeftToAttack == timeLeftToAttack && v.damageType == damageType
      ensures v.currentTimeIntoTheAttack == currentTimeIntoTheAttack
    {
      this.(attackDamage := Max(attackDamage, KindaSmallNumber),
            attackRate := Max(attackRate, KindaSmallNumber),
            attackRange := Max(attackRange, KindaSmallNumber),
            animationDelayUntilDamage := Max(animationDelayUntilDamage, KindaSmallNumber),
            attackRecoveryTime := Max(attackRecoveryTime, KindaSmallNumber))
    }
  }

  /**
   * FProjectileParams without its initial direction, whose normalisation is
   * vector arithmetic outside this model.
   */
  datatype ProjectileParams = ProjectileParams(
    initialSpeed: real,
    damageType: EDamageType,
    damage: real,
    areaOfEffectRadius: real,
    teamId: int)
  {
    predicate Valid() { initialSpeed >= 0.0 }

    function GetValidated(): (v: ProjectileParams)
      ensures v.Valid()
      ensures Valid() ==> v == this
      ensures initialSpeed < 0.0 ==> v.initialSpeed == 0.0
      ensures v.damageType == damageType && v.damage == damage
      ensures v.areaOfEffectRadius == areaOfEffectRadius && v.teamId == teamId
    {
      this.(initialSpeed := Max(0.0, initialSpeed))
    }
  }

  /**
   * FLocationDataFragment: where the entity was last registered in the grid,
   * where it walks to, and the timers of the register processor. The
   * asynchronous trace handle is engine state and is not part of the record.
   */
  datatype LocationDataFragment = LocationDataFragment(
    oldLocation: Vec3,
    walkToLocation: Vec3,
    prevWalkToLocationBeforeAttack: Vec3,
    isAttackLocation: bool,
    timeSince: real,
    baseRefresh: real,
    traceResultIn: bool,
    traceDistMulti: real,
    newLocation: bool,
    shouldRecheckNav: bool,
    exponentialMove: real,
    didNotMoveStreak: int)
  {
    predicate Valid() { baseRefresh >= 0.0 && timeSince >= 0.0 }

    /**
     * `draw` is the value FMath::FRandRange(0, BaseRefresh) produced; the
     * refresh timer starts there (never below zero).
     */
    function GetValidated(draw: real): (v: LocationDataFragment)
      ensures v.Valid()
      ensures baseRefresh >= 0.0 ==> v.baseRefresh == baseRefresh
      ensures baseRefresh < 0.0 ==> v.baseRefresh == 0.0
      ensures v.timeSince == (if draw < 0.0 then 0.0 else draw)
      ensures v.(timeSince := timeSince, baseRefresh := baseRefresh) == this
    {
      this.(baseRefresh := Max(baseRefresh, 0.0), timeSince := Max(draw, 0.0))
    }
  }

  const DefaultLocationData: LocationDataFragment :=
    LocationDataFragment(ZeroVector, ZeroVector, ZeroVector, false, 9999.0, 1.0, false, 1.0,
                         false, false, 0.0, 0)

  /** FHeightFragment: ground-height interpolation settings and timers. */
  datatype HeightFragment = HeightFragment(
    targetHeight: real,
    currentHeight: real,
    timeSinceRefresh: real,
    heightInterpolationSpeed: real,
    baseRefreshPeriod: real,
    distanceAwayToCheckNavMulti: real)
  {
    predicate Valid()
    {
      heightInterpolationSpeed >= 10.0 && baseRefreshPeriod >= 0.01
      && timeSinceRefresh >= 0.0 && distanceAwayToCheckNavMulti >= 0.5
    }

    /** `draw` is the value of FMath::FRandRange(0, BaseRefreshPeriod). */
    function GetValidated(draw: real): (v: HeightFragment)
      ensures v.Valid()
      ensures heightInterpolationSpeed >= 10.0 ==> v.heightInterpolationSpeed == heightInterpolationSpeed
      ensures heightInterpolationSpeed < 10.0 ==> v.heightInterpolationSpeed == 10.0
      ensures baseRefreshPeriod >= 0.01 ==> v.baseRefreshPeriod == baseRefreshPeriod
      ensures baseRefreshPeriod < 0.01 ==> v.baseRefreshPeriod == 0.01
      ensures distanceAwayToCheckNavMulti >= 0.5 ==> v.distanceAwayToCheckNavMulti == distanceAwayToCheckNavMulti
      ensures distanceAwayToCheckNavMulti < 0.5 ==> v.distanceAwayToCheckNavMulti == 0.5
      ensures v.timeSinceRefresh == (if draw < 0.0 then 0.0 else draw)
      ensures v.targetHeight == targetHeight && v.currentHeight == currentHeight
    {
      this.(heightInterpolationSpeed := Max(heightInterpolationSpeed, 10.0),
            baseRefreshPeriod := Max(baseRefreshPeriod, 0.01),
            timeSinceRefresh := Max(draw, 0.0),
            distanceAwayToCheckNavMulti := Max(distanceAwayToCheckNavMulti, 0.5))
    }
  }

  /** FCollisionDataFragment, without its fixed array of nearby handles. */
  datatype CollisionDataFragment = CollisionDataFragment(
    checkDelay: real,
    timeSinceLastCheck: real,
    maxEntitiesToCheck: int,
    collisionMass: real)
  {
    predicate Valid() { checkDelay >= 0.0 && timeSinceLastCheck >= 0.0 && maxEntitiesToCheck >= 1 }

    function GetValidated(): (v: CollisionDataFragment)
      ensures v.Valid()
      ensures Valid() ==> v == this
      ensures checkDelay < 0.0 ==> v.checkDelay == 0.0
      ensures timeSinceLastCheck < 0.0 ==> v.timeSinceLastCheck == 0.0
      ensures maxEntitiesToCheck < 1 ==> v.maxEntitiesToCheck == 1
      ensures v.collisionMass == collisionMass
    {
      this.(checkDelay := Max(checkDelay, 0.0),
            timeSinceLastCheck := Max(timeSinceLastCheck, 0.0),
            maxEntitiesToCheck := if maxEntitiesToCheck < 1 then 1 else maxEntitiesToCheck)
    }
  }

  /** FDeathPhysicsSharedFragment, without its mesh reference. */
  datatype DeathPhysicsSharedFragment = DeathPhysicsSharedFragment(
    deathLocations: seq<Vec3>,
    totalDeaths: int,
    delayTime: real)
  {
    predicate Valid() { totalDeaths >= 0 }

    function GetValidated(): (v: DeathPhysicsSharedFragment)
      ensures v.Valid()
      ensures Valid() ==> v == this
      ensures totalDeaths < 0 ==> v.totalDeaths == 0
      ensures v.deathLocations == deathLocations && v.delayTime == delayTime
    {
      this.(totalDeaths := if totalDeaths < 0 then 0 else totalDeaths)
    }
  }

  /** EAbilityType. */
  datatype EAbilityType = MeleeSingle | MeleeAoe | RangedSingle | RangedAoe | CastSingle
                        | CastAoe | None

  /** FAbilityDataFragment's designer settings (the VFX asset is left out). */
  datatype AbilityDataFragment = AbilityDataFragment(
    cooldown: real,
    abilityRange: real,
    effectRadius: real,
    effectStrength: real,
    abilityType: EAbilityType,
    abilityAnimation: EAnimationState,
    effectTriggerTime: real)
  {
    predicate Valid() { cooldown >= 0.0 }

    function GetValidated(): (v: AbilityDataFragment)
      ensures v.Valid()
      ensures Valid() ==> v == this
      ensures cooldown < 0.0 ==> v.cooldown == 0.0
      ensures v.abilityRange == abilityRange && v.effectRadius == effectRadius
      ensures v.effectStrength == effectStrength && v.abilityType == abilityType
      ensures v.abilityAnimation == abilityAnimation && v.effectTriggerTime == effectTriggerTime
    {
      this.(cooldown := Max(cooldown, 0.0))
    }
  }

  /** FNearEnemiesFragment: the periodic nearest-enemy scan. */
  datatype NearEnemiesFragment = NearEnemiesFragment(
    checkPeriod: real,
    checkRadius: real,
    closestEnemies: seq<Handle>,
    timeSinceLastCheck: real,
    amountOfEnemies: int)
  {
    predicate Valid() { checkPeriod >= 0.02 && amountOfEnemies >= 1 }

    /**
     * The scan timer starts at a random value (`rand()` scaled by the
     * reciprocal of the unvalidated period); `draw` is that value and is not
     * constrained.
     */
    function GetValidated(draw: real): (v: NearEnemiesFragment)
      ensures v.Valid()
      ensures checkPeriod >= 0.02 ==> v.checkPeriod == checkPeriod
      ensures checkPeriod < 0.02 ==> v.checkPeriod == 0.02
      ensures amountOfEnemies >= 1 ==> v.amountOfEnemies == amountOfEnemies
      ensures amountOfEnemies < 1 ==> v.amountOfEnemies == 1
      ensures v.timeSinceLastCheck == draw
      ensures v.checkRadius == checkRadius && v.closestEnemies == closestEnemies
    {
      this.(checkPeriod := Max(checkPeriod, 0.02),
            timeSinceLastCheck := draw,
            amountOfEnemies := if amountOfEnemies < 1 then 1 else amountOfEnemies)
    }
  }

  /**
   * Validating twice is validating once, for every fragment; for the
   * fragments with a random timer, the second validation is given the timer
   * the first one chose.
   */
  lemma ValidationIsIdempotent(
    r: ResourceFragment, a: AnimationFragment, d: DefenceFragment, t: TeamFragment,
    k: AttackFragment, p: ProjectileParams, l: LocationDataFragment, lDraw: real,
    h: HeightFragment, hDraw: real, c: CollisionDataFragment, x: DeathPhysicsSharedFragment,
    b: AbilityDataFragment, n: NearEnemiesFragment, nDraw: real)
    ensures r.GetValidated().GetValidated() == r.GetValidated()
    ensures a.GetValidated().GetValidated() == a.GetValidated()
    ensures d.GetValidated().GetValidated() == d.GetValidated()
    ensures t.GetValidated().GetValidated() == t.GetValidated()
    ensures k.GetValidated().GetValidated() == k.GetValidated()
    ensures p.GetValidated().GetValidated() == p.GetValidated()
    ensures var v := l.GetValidated(lDraw); v.GetValidated(v.timeSince) == v
    ensures var v := h.GetValidated(hDraw); v.GetValidated(v.timeSinceRefresh) == v
    ensures c.GetValidated().GetValidated() == c.GetValidated()
    ensures x.GetValidated().GetValidated() == x.GetValidated()
    ensures b.GetValidated().GetValidated() == b.GetValidated()
    ensures var v := n.GetValidated(nDraw); v.GetValidated(v.timeSinceLastCheck) == v
  {
  }

  /**
   * FStateFragment: the entity's current aggression stance and the one it
   * had before the last change.
   */
  class StateFragment {
    var currentAggressionState: EAggressionState
    var previousAggressionState: EAggressionState

    constructor ()
      ensures currentAggressionState == Passive && previousAggressionState == Passive
    {
      currentAggressionState := Passive;
      previousAggressionState := Passive;
    }

    /** The stance being replaced becomes the previous stance. */
    method SetAggressionState(newAggressionState: EAggressionState)
      modifies this
      ensures previousAggressionState == old(currentAggressionState)
      ensures currentAggressionState == newAggressionState
      ensures GetPreviousAggressionState() == old(GetCurrentAggressionState())
      ensures GetCurrentAggressionState() == newAggressionState
    {
      previousAggressionState := currentAggressionState;
      currentAggressionState := newAggressionState;
    }

    /** The stance the entity holds now. */
    function GetCurrentAggressionState(): (r: EAggressionState)
      reads this
      ensures r == currentAggressionState
    {
      currentAggressionState
    }

    /** The stance the entity held before the last change. */
    function GetPreviousAggressionState(): (r: EAggressionState)
      reads this
      ensures r == previousAggressionState
    {
      previousAggressionState
    }
  }
}
