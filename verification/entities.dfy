/**
 * The Mass entity manager as the subsystem sees it: a directory from live
 * handles to the fragments each entity carries, and FSmbEntityData, the
 * Blueprint-facing copy of a handle.
 */
module SmbEntities {
  import opened SmbCommon
  import opened SmbFragments

  /**
   * FSmbEntityData. Its default value, serial -1 and index -1, is the
   * "no entity" sentinel that the queries return when nothing is found.
   */
  datatype EntityData = EntityData(serialNumber: int, index: int)

  const NoEntity: EntityData := EntityData(-1, -1)

  /** FMassEntityHandle(Index, SerialNumber), as the subsystem rebuilds a handle. */
  function ToHandle(d: EntityData): Handle
  {
    Handle(d.index, d.serialNumber)
  }

  /** The two-int constructor takes the serial number first and the index second. */
  function EntityDataOf(serial: int, index: int): (d: EntityData)
    ensures ToHandle(d) == Handle(index, serial)
    ensures d == NoEntity <==> serial == -1 && index == -1
  {
    EntityData(serial, index)
  }

  /** The handle constructor keeps both the index and the serial number. */
  function FromHandle(h: Handle): (d: EntityData)
    ensures ToHandle(d) == h
    ensures d.index == h.index && d.serialNumber == h.serialNumber
  {
    EntityData(h.serialNumber, h.index)
  }

  /**
   * One entity: the fragments the subsystem reads or writes, each absent
   * when the entity's archetype lacks it. `location` is the translation of
   * FTransformFragment and `agentRadius` the value of FAgentRadiusFragment.
   */
  datatype Entity = Entity(
    location: Option<Vec3>,
    defence: Option<DefenceFragment>,
    team: Option<TeamFragment>,
    agentRadius: Option<real>,
    resource: Option<ResourceFragment>,
    locationData: Option<LocationDataFragment>)

  /** The live entities; IsEntityValid(h) is `h in` the directory. */
  type Directory = map<Handle, Entity>

  /** The entity manager reserves index 0, so a live entity's index is positive. */
  predicate LiveIndices(ents: Directory)
  {
    forall h :: h in ents ==> h.index > 0
  }

  /** Neither the "no entity" sentinel nor the default handle is ever live. */
  lemma SentinelsAreNotLive(ents: Directory)
    requires LiveIndices(ents)
    ensures ToHandle(NoEntity) !in ents && NullHandle !in ents
    ensures forall h :: h in ents ==> FromHandle(h) != NoEntity
  {
  }

  /** The location of a live entity that has a transform. */
  function LocationOf(ents: Directory, h: Handle): Vec3
    requires h in ents && ents[h].location.Some?
  {
    ents[h].location.value
  }

  /** The entity with only its HP replaced; every other fragment is kept. */
  function WithHp(e: Entity, hp: real): (r: Entity)
    requires e.defence.Some?
    ensures r.defence.Some? && r.defence.value.hp == hp
    ensures r.defence.value.maxHP == e.defence.value.maxHP
    ensures r.defence.value.unitArmor == e.defence.value.unitArmor
    ensures r.(defence := e.defence) == e
  {
    e.(defence := Some(e.defence.value.(hp := hp)))
  }

  /** The entity with only its carried amounts replaced. */
  function WithCarrying(e: Entity, carrying: map<EProcessable, int>): (r: Entity)
    requires e.resource.Some?
    ensures r.resource.Some? && r.resource.value.carrying == carrying
    ensures r.resource.value.bonusMap == e.resource.value.bonusMap
    ensures r.resource.value.timeSinceGatherStart == e.resource.value.timeSinceGatherStart
    ensures r.(resource := e.resource) == e
  {
    e.(resource := Some(e.resource.value.(carrying := carrying)))
  }

  /** Entity y is entity x with at most its HP changed. */
  predicate HpOnlyChange(x: Entity, y: Entity)
  {
    x.location == y.location && x.team == y.team && x.agentRadius == y.agentRadius &&
    x.resource == y.resource && x.locationData == y.locationData &&
    x.defence.Some? == y.defence.Some? &&
    (x.defence.Some? ==> x.defence.value.maxHP == y.defence.value.maxHP &&
                         x.defence.value.unitArmor == y.defence.value.unitArmor)
  }

  /**
   * Two directories that differ at most in the HP of their entities: the
   * same handles, and every other fragment of every entity equal.
   */
  predicate SameButHp(a: Directory, b: Directory)
  {
    a.Keys == b.Keys && forall h :: h in a ==> HpOnlyChange(a[h], b[h])
  }

  lemma SameButHpTrans(a: Directory, b: Directory, c: Directory)
    requires SameButHp(a, b) && SameButHp(b, c)
    ensures SameButHp(a, c)
  {
  }
}
