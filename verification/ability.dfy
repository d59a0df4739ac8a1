/**
 * USmbAbilityData, the designer asset that describes one ability, reduced
 * to the numbers the attack cycle and the damage calls read. The gameplay
 * tags that classify an ability are summarised by `SkillKind`.
 */
module SmbAbility {

  /**
   * What the ability's tags say about it: no "Skill.Type" tag at all; a
   * melee skill, with or without the "Skill.Modifier.Area" tag; a ranged,
   * cast or gather skill; or a "Skill.Type" tag that is none of these.
   */
  datatype SkillKind = NoSkillType | Melee(area: bool) | Ranged | Cast | Gather | OtherSkillType

  datatype AbilityData = AbilityData(
    damage: real,
    range: real,
    areaOfEffect: real,
    timeUntilHit: real,
    recoveryTime: real,
    speed: real,
    skill: SkillKind)

  /** The asset's defaults. */
  const DefaultAbility: AbilityData := AbilityData(10.0, 100.0, 100.0, 0.3, 0.2, 0.0, NoSkillType)
}
