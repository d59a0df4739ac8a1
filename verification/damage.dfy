/**
 * How the subsystem's damage calls change HP: the armour rule, the floor at
 * zero, and the three ways damage is dealt (one target, an area, a list of
 * selected entities). The area and list variants walk their candidates in
 * order and change the directory as they go; `Aoe` and `DamageSelected`
 * describe that walk one candidate at a time.
 */
module SmbDamage {
  import opened SmbCommon
  import opened SmbFragments
  import opened SmbGrid
  import opened SmbEntities

  /** The damage type each armour is weak to; an unarmoured entity has no weakness. */
  function Weakness(armor: EArmorType): Option<EDamageType>
  {
    match armor
    case HeavyArmor => Some(Blunt)
    case LightArmor => Some(Slashing)
    case MediumArmor => Some(Piercing)
    case None => Option.None
  }

  /**
   * The factor the damage is multiplied by: the code doubles it for
   * (Blunt, heavy), (Slashing, light) and (Piercing, medium) armour, which
   * is exactly when the damage type is the armour's weakness.
   */
  function Multiplier(dtype: EDamageType, armor: EArmorType): (m: real)
    ensures m == (if Weakness(armor) == Some(dtype) then 2.0 else 1.0)
  {
    if dtype == Blunt && armor == HeavyArmor then 2.0
    else if dtype == Slashing && armor == LightArmor then 2.0
    else if dtype == Piercing && armor == MediumArmor then 2.0
    else 1.0
  }

  /** HP after a hit: reduced by the amount and floored at zero. */
  function AfterHit(hp: real, amount: real): (r: real)
    ensures 0.0 <= r
    ensures r == 0.0 <==> hp - amount <= 0.0
    ensures 0.0 < hp - amount ==> r == hp - amount
    ensures 0.0 <= amount && 0.0 <= hp ==> r <= hp
  {
    if hp - amount <= 0.0 then 0.0 else hp - amount
  }

  // ----- DealDamageAoe -----

  /**
   * A candidate an area hit reaches: live, placed within the radius plus
   * its own agent radius, with a defence, and on a team other than the
   * attacker's. Its HP is not considered here.
   */
  predicate InAoeReach(ents: Directory, u: Handle, p: Vec3, radius: real, ownTeam: int)
  {
    u in ents && ents[u].location.Some? && ents[u].agentRadius.Some? &&
    WithinDist(ents[u].location.value, p, radius + ents[u].agentRadius.value) &&
    ents[u].defence.Some? &&
    ents[u].team.Some? && ents[u].team.value.teamID != ownTeam
  }

  /** A candidate DealDamageAoe damages: within reach and still alive. */
  predicate IsAoeTarget(ents: Directory, u: Handle, p: Vec3, radius: real, ownTeam: int)
  {
    InAoeReach(ents, u, p, radius, ownTeam) && ents[u].defence.value.hp > 0.0
  }

  /**
   * The state DealDamageAoe carries through its loop: the directory, the
   * damage amount (a loop variable the armour rule doubles in place), the
   * handles signalled so far and the kill counter.
   */
  datatype AoeState = AoeState(ents: Directory, amount: real, signaled: seq<Handle>, killed: int)

  /** One candidate of DealDamageAoe's loop. */
  function AoeHit(s: AoeState, u: Handle, p: Vec3, radius: real, dtype: EDamageType, ownTeam: int): AoeState
  {
    if !IsAoeTarget(s.ents, u, p, radius, ownTeam) then s
    else
      var e := s.ents[u];
      var amount := s.amount * Multiplier(dtype, e.defence.value.unitArmor);
      var hp := AfterHit(e.defence.value.hp, amount);
      AoeState(s.ents[u := WithHp(e, hp)], amount, s.signaled + [u],
               if hp == 0.0 then s.killed + 1 else s.killed)
  }

  /** DealDamageAoe's loop over the candidates, in order. */
  function Aoe(s: AoeState, units: seq<Handle>, p: Vec3, radius: real, dtype: EDamageType, ownTeam: int)
    : AoeState
  {
    if units == [] then s
    else AoeHit(Aoe(s, units[..|units| - 1], p, radius, dtype, ownTeam), units[|units| - 1],
                p, radius, dtype, ownTeam)
  }

  /** The first i + 1 handles: the first i, then one more hit. */
  lemma AoeLast(s: AoeState, units: seq<Handle>, i: int, p: Vec3, radius: real, dtype: EDamageType, ownTeam: int)
    requires 0 <= i < |units|
    ensures Aoe(s, units[..i + 1], p, radius, dtype, ownTeam) ==
            AoeHit(Aoe(s, units[..i], p, radius, dtype, ownTeam), units[i], p, radius, dtype, ownTeam)
  {
    assert units[..i + 1][..i] == units[..i];
  }

  /** `a` doubled n times. */
  function Doubled(a: real, n: nat): (r: real)
    ensures 0.0 <= a ==> a <= r
  {
    if n == 0 then a else 2.0 * Doubled(a, n - 1)
  }

  /** How many of the handles are weak to `dtype`: live, with a defence whose armour has that weakness. */
  function WeakCount(ents: Directory, hs: seq<Handle>, dtype: EDamageType): nat
  {
    if hs == [] then 0
    else
      var h := hs[|hs| - 1];
      WeakCount(ents, hs[..|hs| - 1], dtype) +
        (if h in ents && ents[h].defence.Some? && Weakness(ents[h].defence.value.unitArmor) == Some(dtype)
         then 1 else 0)
  }

  /** One step of the area hit changes at most the HP of the one candidate it looks at. */
  lemma AoeStepKeeps(q: AoeState, u: Handle, p: Vec3, radius: real, dtype: EDamageType, ownTeam: int)
    ensures var q2 := AoeHit(q, u, p, radius, dtype, ownTeam);
            && SameButHp(q.ents, q2.ents)
            && (forall h :: h in q.ents && h != u ==> q2.ents[h] == q.ents[h])
  {
  }

  /**
   * One step of the area hit either leaves the state alone or signals the
   * candidate, leaves it with HP at least zero, counts at most one kill and
   * doubles the amount when the candidate's armour is weak to the damage.
   */
  lemma AoeStepHits(q: AoeState, u: Handle, p: Vec3, radius: real, dtype: EDamageType, ownTeam: int)
    ensures var q2 := AoeHit(q, u, p, radius, dtype, ownTeam);
            if IsAoeTarget(q.ents, u, p, radius, ownTeam)
            then q2.signaled == q.signaled + [u] && u in q2.ents && q2.ents[u].defence.Some? &&
                 q2.ents[u].defence.value.hp >= 0.0 && q.killed <= q2.killed <= q.killed + 1 &&
                 q2.amount == (if Weakness(q.ents[u].defence.value.unitArmor) == Some(dtype) then 2.0 * q.amount
                               else q.amount)
            else q2 == q
  {
  }

  /** An area hit changes nothing but HP. */
  lemma {:induction false} AoeOnlyHp(s: AoeState, units: seq<Handle>, p: Vec3, radius: real,
                                     dtype: EDamageType, ownTeam: int)
    ensures SameButHp(s.ents, Aoe(s, units, p, radius, dtype, ownTeam).ents)
  {
    if units != [] {
      var prefix := units[..|units| - 1];
      AoeOnlyHp(s, prefix, p, radius, dtype, ownTeam);
      var q := Aoe(s, prefix, p, radius, dtype, ownTeam);
      AoeStepKeeps(q, units[|units| - 1], p, radius, dtype, ownTeam);
      SameButHpTrans(s.ents, q.ents, Aoe(s, units, p, radius, dtype, ownTeam).ents);
    }
  }

  /** The handles among `hs` whose HP has been driven to zero. */
  function DeadAmong(ents: Directory, hs: seq<Handle>): set<Handle>
  {
    set h | h in hs && h in ents && ents[h].defence.Some? && ents[h].defence.value.hp == 0.0
  }

  /**
   * Hitting a handle that is still alive adds it to the dead exactly when
   * the hit leaves it at zero HP, and leaves every other handle as it was.
   */
  lemma {:induction false} DeadStep(ents: Directory, hs: seq<Handle>, u: Handle, e: Entity)
    requires u in ents && ents[u].defence.Some? && ents[u].defence.value.hp > 0.0 && e.defence.Some?
    ensures u !in DeadAmong(ents, hs)
    ensures DeadAmong(ents[u := e], hs + [u]) == DeadAmong(ents, hs) + (if e.defence.value.hp == 0.0 then {u} else {})
    ensures |DeadAmong(ents[u := e], hs + [u])| == |DeadAmong(ents, hs)| + (if e.defence.value.hp == 0.0 then 1 else 0)
  {
    var extra: set<Handle> := if e.defence.value.hp == 0.0 then {u} else {};
    DeadMembers(ents, hs, u, e);
    assert DeadAmong(ents[u := e], hs + [u]) == DeadAmong(ents, hs) + extra;
  }

  lemma {:induction false} DeadMembers(ents: Directory, hs: seq<Handle>, u: Handle, e: Entity)
    requires u in ents && ents[u].defence.Some? && ents[u].defence.value.hp > 0.0 && e.defence.Some?
    ensures forall h :: h in DeadAmong(ents[u := e], hs + [u]) <==>
                        h in DeadAmong(ents, hs) || (h == u && e.defence.value.hp == 0.0)
  {
    forall h ensures h in DeadAmong(ents[u := e], hs + [u]) <==> h in DeadAmong(ents, hs) || (h == u && e.defence.value.hp == 0.0) {
      if h != u {
        assert h in hs + [u] <==> h in hs;
      }
    }
  }

  /** A kill counted exactly when a hit leaves a live handle at zero HP keeps the count equal to the dead. */
  lemma {:induction false} KillCounted(ents: Directory, hs: seq<Handle>, killed: int, u: Handle, hp: real)
    requires u in ents && ents[u].defence.Some? && ents[u].defence.value.hp > 0.0
    ensures (if hp == 0.0 then killed + 1 else killed) - killed ==
            |DeadAmong(ents[u := WithHp(ents[u], hp)], hs + [u])| - |DeadAmong(ents, hs)|
  {
    DeadStep(ents, hs, u, WithHp(ents[u], hp));
  }

  /**
   * What an area hit does, starting from no signalled handles:
   * - only HP changes, and only for handles it signals;
   * - the signalled handles are exactly the candidates that were within
   *   reach, alive and on another team before the hit; each ends with HP
   *   at least zero;
   * - the kill counter grows by one for every signalled handle driven to
   *   zero HP, so by at most one per signalled handle.
   */
  lemma {:induction false} AoeEffects(s: AoeState, units: seq<Handle>, p: Vec3, radius: real,
                                      dtype: EDamageType, ownTeam: int)
    requires s.signaled == []
    ensures var r := Aoe(s, units, p, radius, dtype, ownTeam);
            && SameButHp(s.ents, r.ents)
            && (forall h :: h in s.ents && h !in r.signaled ==> r.ents[h] == s.ents[h])
            && (forall h :: h in r.signaled ==>
                  h in units && IsAoeTarget(s.ents, h, p, radius, ownTeam) &&
                  h in r.ents && r.ents[h].defence.Some? && r.ents[h].defence.value.hp >= 0.0)
            && (forall h :: h in units && IsAoeTarget(s.ents, h, p, radius, ownTeam) ==> h in r.signaled)
            && r.killed == s.killed + |DeadAmong(r.ents, r.signaled)|
            && s.killed <= r.killed <= s.killed + |r.signaled|
  {
    AoeKillBound(s, units, p, radius, dtype, ownTeam);
    AoeHitsExactly(s, units, p, radius, dtype, ownTeam);
    var r := Aoe(s, units, p, radius, dtype, ownTeam);
    assert HitsExactly(s, units, r, p, radius, ownTeam);
  }

  /** Only HP changes, HP stays at least zero for the signalled, and the kill counter grows by at most one per signal. */
  lemma {:induction false} AoeKillBound(s: AoeState, units: seq<Handle>, p: Vec3, radius: real,
                                        dtype: EDamageType, ownTeam: int)
    ensures var r := Aoe(s, units, p, radius, dtype, ownTeam);
            && SameButHp(s.ents, r.ents)
            && (forall h :: h in r.signaled && h !in s.signaled ==>
                  h in r.ents && r.ents[h].defence.Some? && r.ents[h].defence.value.hp >= 0.0)
            && s.killed <= r.killed <= s.killed + |r.signaled| - |s.signaled|
  {
    if units != [] {
      var prefix := units[..|units| - 1];
      var u := units[|units| - 1];
      AoeKillBound(s, prefix, p, radius, dtype, ownTeam);
      var q := Aoe(s, prefix, p, radius, dtype, ownTeam);
      AoeStepKeeps(q, u, p, radius, dtype, ownTeam);
      AoeStepHits(q, u, p, radius, dtype, ownTeam);
      SameButHpTrans(s.ents, q.ents, Aoe(s, units, p, radius, dtype, ownTeam).ents);
    }
  }

  /**
   * `r` is what the area hit over `units` left of `s`: only signalled
   * handles changed, the signalled handles are exactly the candidates that
   * were targets in `s`, and one kill was counted for each of them now at
   * zero HP.
   */
  predicate HitsExactly(s: AoeState, units: seq<Handle>, r: AoeState, p: Vec3, radius: real, ownTeam: int)
  {
    && r.ents.Keys == s.ents.Keys
    && (forall h :: h in s.ents && h !in r.signaled ==> r.ents[h] == s.ents[h])
    && (forall h :: h in r.signaled ==> h in units && IsAoeTarget(s.ents, h, p, radius, ownTeam))
    && (forall h :: h in units && IsAoeTarget(s.ents, h, p, radius, ownTeam) ==> h in r.signaled)
    && r.killed == s.killed + |DeadAmong(r.ents, r.signaled)|
  }

  /**
   * The area hit signals exactly the candidates that were targets before
   * it began (its first visit of a handle sees the handle untouched), and
   * counts one kill for each of them it leaves at zero HP.
   */
  lemma {:induction false} AoeHitsExactly(s: AoeState, units: seq<Handle>, p: Vec3, radius: real,
                                          dtype: EDamageType, ownTeam: int)
    requires s.signaled == []
    ensures HitsExactly(s, units, Aoe(s, units, p, radius, dtype, ownTeam), p, radius, ownTeam)
  {
    if units == [] {
      assert DeadAmong(s.ents, s.signaled) == {};
    } else {
      var prefix := units[..|units| - 1];
      AoeHitsExactly(s, prefix, p, radius, dtype, ownTeam);
      AoeHitsStep(s, prefix, units[|units| - 1], Aoe(s, prefix, p, radius, dtype, ownTeam), p, radius, dtype, ownTeam);
      assert prefix + [units[|units| - 1]] == units;
    }
  }

  /** One more candidate keeps HitsExactly. */
  lemma {:induction false} AoeHitsStep(s: AoeState, prefix: seq<Handle>, u: Handle, q: AoeState, p: Vec3, radius: real,
                                       dtype: EDamageType, ownTeam: int)
    requires HitsExactly(s, prefix, q, p, radius, ownTeam)
    ensures HitsExactly(s, prefix + [u], AoeHit(q, u, p, radius, dtype, ownTeam), p, radius, ownTeam)
  {
    if IsAoeTarget(q.ents, u, p, radius, ownTeam) {
      AoeHitsTarget(s, prefix, u, q, p, radius, dtype, ownTeam);
    } else {
      AoeSkipsOther(s, prefix, u, q, p, radius, dtype, ownTeam);
    }
  }

  /** A candidate that is a target joins the signalled, first seen untouched. */
  lemma {:induction false} AoeHitsTarget(s: AoeState, prefix: seq<Handle>, u: Handle, q: AoeState, p: Vec3, radius: real,
                                         dtype: EDamageType, ownTeam: int)
    requires HitsExactly(s, prefix, q, p, radius, ownTeam)
    requires IsAoeTarget(q.ents, u, p, radius, ownTeam)
    ensures HitsExactly(s, prefix + [u], AoeHit(q, u, p, radius, dtype, ownTeam), p, radius, ownTeam)
  {
    var r := AoeHit(q, u, p, radius, dtype, ownTeam);
    AoeHitsTargetKills(q, u, p, radius, dtype, ownTeam);
    AoeHitsTargetSignals(s, prefix, u, q, p, radius, dtype, ownTeam);
    assert r.killed == s.killed + |DeadAmong(r.ents, r.signaled)|;
  }

  lemma AoeHitsTargetKills(q: AoeState, u: Handle, p: Vec3, radius: real, dtype: EDamageType, ownTeam: int)
    requires IsAoeTarget(q.ents, u, p, radius, ownTeam)
    ensures var r := AoeHit(q, u, p, radius, dtype, ownTeam);
            r.killed - q.killed == |DeadAmong(r.ents, r.signaled)| - |DeadAmong(q.ents, q.signaled)|
  {
    var e := q.ents[u];
    var amount := q.amount * Multiplier(dtype, e.defence.value.unitArmor);
    KillCounted(q.ents, q.signaled, q.killed, u, AfterHit(e.defence.value.hp, amount));
  }

  lemma {:induction false} AoeHitsTargetSignals(s: AoeState, prefix: seq<Handle>, u: Handle, q: AoeState, p: Vec3, radius: real,
                                                dtype: EDamageType, ownTeam: int)
    requires HitsExactly(s, prefix, q, p, radius, ownTeam)
    requires IsAoeTarget(q.ents, u, p, radius, ownTeam)
    ensures var r := AoeHit(q, u, p, radius, dtype, ownTeam);
            && r.ents.Keys == s.ents.Keys
            && (forall h :: h in s.ents && h !in r.signaled ==> r.ents[h] == s.ents[h])
            && (forall h :: h in r.signaled ==> h in prefix + [u] && IsAoeTarget(s.ents, h, p, radius, ownTeam))
            && (forall h :: h in prefix + [u] && IsAoeTarget(s.ents, h, p, radius, ownTeam) ==> h in r.signaled)
  {
    if u !in q.signaled {
      assert q.ents[u] == s.ents[u];
    }
    assert forall h :: h in prefix + [u] <==> h in prefix || h == u;
  }

  /** A candidate that is not a target changes nothing, and was no target before either. */
  lemma {:induction false} AoeSkipsOther(s: AoeState, prefix: seq<Handle>, u: Handle, q: AoeState, p: Vec3, radius: real,
                                         dtype: EDamageType, ownTeam: int)
    requires HitsExactly(s, prefix, q, p, radius, ownTeam)
    requires !IsAoeTarget(q.ents, u, p, radius, ownTeam)
    ensures HitsExactly(s, prefix + [u], AoeHit(q, u, p, radius, dtype, ownTeam), p, radius, ownTeam)
  {
    if u in s.ents && u !in q.signaled {
      assert q.ents[u] == s.ents[u];
    }
    assert forall h :: h in prefix + [u] <==> h in prefix || h == u;
  }

  /**
   * The doubling compounds: the damage amount after the loop is the
   * starting amount doubled once for every signalled target whose armour
   * is weak to the damage type, so each later target receives the product
   * of every earlier doubling.
   */
  lemma {:induction false} AoeCompounds(s: AoeState, units: seq<Handle>, p: Vec3, radius: real,
                                        dtype: EDamageType, ownTeam: int)
    requires s.signaled == []
    ensures var r := Aoe(s, units, p, radius, dtype, ownTeam);
            r.amount == Doubled(s.amount, WeakCount(s.ents, r.signaled, dtype))
  {
    if units != [] {
      var prefix := units[..|units| - 1];
      var u := units[|units| - 1];
      AoeCompounds(s, prefix, p, radius, dtype, ownTeam);
      AoeOnlyHp(s, prefix, p, radius, dtype, ownTeam);
      var q := Aoe(s, prefix, p, radius, dtype, ownTeam);
      AoeStepHits(q, u, p, radius, dtype, ownTeam);
      if IsAoeTarget(q.ents, u, p, radius, ownTeam) {
        WeakCountSnoc(s.ents, q.signaled, u, dtype);
        assert HpOnlyChange(s.ents[u], q.ents[u]);
      }
    }
  }

  lemma WeakCountSnoc(ents: Directory, hs: seq<Handle>, h: Handle, dtype: EDamageType)
    ensures WeakCount(ents, hs + [h], dtype) ==
            WeakCount(ents, hs, dtype) +
            (if h in ents && ents[h].defence.Some? && Weakness(ents[h].defence.value.unitArmor) == Some(dtype)
             then 1 else 0)
  {
    assert (hs + [h])[..|hs|] == hs;
  }

  /** Normal damage is never doubled, so every target of a Normal area hit receives the same amount. */
  lemma NormalAoeIsFlat(s: AoeState, units: seq<Handle>, p: Vec3, radius: real, ownTeam: int)
    requires s.signaled == []
    ensures Aoe(s, units, p, radius, Normal, ownTeam).amount == s.amount
  {
    AoeCompounds(s, units, p, radius, Normal, ownTeam);
    NoWeaknessToNormal(s.ents, Aoe(s, units, p, radius, Normal, ownTeam).signaled);
  }

  lemma {:induction false} NoWeaknessToNormal(ents: Directory, hs: seq<Handle>)
    ensures WeakCount(ents, hs, Normal) == 0
  {
    if hs != [] {
      NoWeaknessToNormal(ents, hs[..|hs| - 1]);
    }
  }

  /**
   * DealDamageAoe passes its world-unit radius to the grid as a radius in
   * cells, rounded toward zero; a radius below one unit therefore searches
   * no cell and damages nobody, whatever stands at the centre.
   */
  lemma SubUnitRadiusHitsNobody(cells: Cells, s: AoeState, p: Vec3, radius: real, dtype: EDamageType,
                                ownTeam: int)
    requires 0.0 <= radius < 1.0
    ensures var c := VectorToCell(p);
            Aoe(s, Around(cells, c.0, c.1, TruncToInt(radius)), p, radius, dtype, ownTeam) == s
  {
    var c := VectorToCell(p);
    AroundEmpty(cells, c.0, c.1, TruncToInt(radius));
  }

  // ----- DamageSelectedEntities -----

  /** A selected entity DamageSelectedEntities damages: live, with a defence, alive, on another team. */
  predicate IsSelectedTarget(ents: Directory, u: Handle, ownTeam: int)
  {
    u in ents && ents[u].defence.Some? && ents[u].defence.value.hp > 0.0 &&
    ents[u].team.Some? && ents[u].team.value.teamID != ownTeam
  }

  datatype SelState = SelState(ents: Directory, signaled: seq<Handle>, killed: int)

  /** One entry of DamageSelectedEntities' loop: the damage is applied unmultiplied. */
  function SelHit(s: SelState, d: EntityData, damage: real, ownTeam: int): SelState
  {
    var u := ToHandle(d);
    if !IsSelectedTarget(s.ents, u, ownTeam) then s
    else
      var e := s.ents[u];
      var hp := AfterHit(e.defence.value.hp, damage);
      SelState(s.ents[u := WithHp(e, hp)], s.signaled + [u], if hp == 0.0 then s.killed + 1 else s.killed)
  }

  function DamageSelected(s: SelState, selected: seq<EntityData>, damage: real, ownTeam: int): SelState
  {
    if selected == [] then s
    else SelHit(DamageSelected(s, selected[..|selected| - 1], damage, ownTeam), selected[|selected| - 1],
                damage, ownTeam)
  }

  /**
   * What DamageSelectedEntities does, starting from no signalled handles:
   * - only the HP of signalled entities changes;
   * - the signalled handles are exactly those of the selected entries that
   *   were live, alive, with a defence and on another team before the
   *   loop; each ends with HP at least zero;
   * - the kill counter grows by one for every signalled handle driven to
   *   zero HP, so by at most one per signalled handle.
   */
  lemma {:induction false} DamageSelectedEffects(s: SelState, selected: seq<EntityData>, damage: real,
                                                 ownTeam: int)
    requires s.signaled == []
    ensures var r := DamageSelected(s, selected, damage, ownTeam);
            && SameButHp(s.ents, r.ents)
            && (forall h :: h in s.ents && h !in r.signaled ==> r.ents[h] == s.ents[h])
            && (forall h :: h in r.signaled ==>
                  FromHandle(h) in selected && IsSelectedTarget(s.ents, h, ownTeam) &&
                  h in r.ents && r.ents[h].defence.Some? && r.ents[h].defence.value.hp >= 0.0)
            && (forall d :: d in selected && IsSelectedTarget(s.ents, ToHandle(d), ownTeam) ==>
                  ToHandle(d) in r.signaled)
            && r.killed == s.killed + |DeadAmong(r.ents, r.signaled)|
            && s.killed <= r.killed <= s.killed + |r.signaled|
  {
    SelKillBound(s, selected, damage, ownTeam);
    SelHitsExactly(s, selected, damage, ownTeam);
    assert SelExactly(s, selected, DamageSelected(s, selected, damage, ownTeam), ownTeam);
  }

  /** Only HP changes, HP stays at least zero for the signalled, and the kill counter grows by at most one per signal. */
  lemma {:induction false} SelKillBound(s: SelState, selected: seq<EntityData>, damage: real, ownTeam: int)
    ensures var r := DamageSelected(s, selected, damage, ownTeam);
            && SameButHp(s.ents, r.ents)
            && (forall h :: h in r.signaled && h !in s.signaled ==>
                  h in r.ents && r.ents[h].defence.Some? && r.ents[h].defence.value.hp >= 0.0)
            && s.killed <= r.killed <= s.killed + |r.signaled| - |s.signaled|
  {
    if selected != [] {
      var prefix := selected[..|selected| - 1];
      SelKillBound(s, prefix, damage, ownTeam);
      var q := DamageSelected(s, prefix, damage, ownTeam);
      SelStepKeeps(q, selected[|selected| - 1], damage, ownTeam);
      SameButHpTrans(s.ents, q.ents, DamageSelected(s, selected, damage, ownTeam).ents);
    }
  }

  /** One entry changes at most the HP of its own handle, signals it only if it is a target, and counts at most one kill. */
  lemma SelStepKeeps(q: SelState, d: EntityData, damage: real, ownTeam: int)
    ensures var q2 := SelHit(q, d, damage, ownTeam);
            && SameButHp(q.ents, q2.ents)
            && (if IsSelectedTarget(q.ents, ToHandle(d), ownTeam)
                then q2.signaled == q.signaled + [ToHandle(d)] && q2.ents[ToHandle(d)].defence.Some? &&
                     q2.ents[ToHandle(d)].defence.value.hp >= 0.0 && q.killed <= q2.killed <= q.killed + 1
                else q2 == q)
  {
  }

  /**
   * `r` is what DamageSelectedEntities' loop over `selected` left of `s`:
   * only signalled handles changed, the signalled handles are exactly those
   * of the selected entries that were targets in `s`, and one kill was
   * counted for each of them now at zero HP.
   */
  predicate SelExactly(s: SelState, selected: seq<EntityData>, r: SelState, ownTeam: int)
  {
    && r.ents.Keys == s.ents.Keys
    && (forall h :: h in s.ents && h !in r.signaled ==> r.ents[h] == s.ents[h])
    && (forall h :: h in r.signaled ==> FromHandle(h) in selected && IsSelectedTarget(s.ents, h, ownTeam))
    && (forall d :: d in selected && IsSelectedTarget(s.ents, ToHandle(d), ownTeam) ==> ToHandle(d) in r.signaled)
    && r.killed == s.killed + |DeadAmong(r.ents, r.signaled)|
  }

  lemma {:induction false} SelHitsExactly(s: SelState, selected: seq<EntityData>, damage: real, ownTeam: int)
    requires s.signaled == []
    ensures SelExactly(s, selected, DamageSelected(s, selected, damage, ownTeam), ownTeam)
  {
    if selected == [] {
      assert DeadAmong(s.ents, s.signaled) == {};
    } else {
      var prefix := selected[..|selected| - 1];
      SelHitsExactly(s, prefix, damage, ownTeam);
      SelHitsStep(s, prefix, selected[|selected| - 1], DamageSelected(s, prefix, damage, ownTeam), damage, ownTeam);
      assert prefix + [selected[|selected| - 1]] == selected;
    }
  }

  /** One more selected entry keeps SelExactly. */
  lemma {:induction false} SelHitsStep(s: SelState, prefix: seq<EntityData>, d: EntityData, q: SelState, damage: real, ownTeam: int)
    requires SelExactly(s, prefix, q, ownTeam)
    ensures SelExactly(s, prefix + [d], SelHit(q, d, damage, ownTeam), ownTeam)
  {
    if IsSelectedTarget(q.ents, ToHandle(d), ownTeam) {
      SelHitsTarget(s, prefix, d, q, damage, ownTeam);
    } else {
      SelSkipsOther(s, prefix, d, q, damage, ownTeam);
    }
  }

  lemma {:induction false} SelHitsTarget(s: SelState, prefix: seq<EntityData>, d: EntityData, q: SelState, damage: real, ownTeam: int)
    requires SelExactly(s, prefix, q, ownTeam)
    requires IsSelectedTarget(q.ents, ToHandle(d), ownTeam)
    ensures SelExactly(s, prefix + [d], SelHit(q, d, damage, ownTeam), ownTeam)
  {
    var r := SelHit(q, d, damage, ownTeam);
    SelHitsTargetKills(q, d, damage, ownTeam);
    SelHitsTargetSignals(s, prefix, d, q, damage, ownTeam);
    assert r.killed == s.killed + |DeadAmong(r.ents, r.signaled)|;
  }

  lemma SelHitsTargetKills(q: SelState, d: EntityData, damage: real, ownTeam: int)
    requires IsSelectedTarget(q.ents, ToHandle(d), ownTeam)
    ensures var r := SelHit(q, d, damage, ownTeam);
            r.killed - q.killed == |DeadAmong(r.ents, r.signaled)| - |DeadAmong(q.ents, q.signaled)|
  {
    var u := ToHandle(d);
    KillCounted(q.ents, q.signaled, q.killed, u, AfterHit(q.ents[u].defence.value.hp, damage));
  }

  lemma {:induction false} SelHitsTargetSignals(s: SelState, prefix: seq<EntityData>, d: EntityData, q: SelState, damage: real,
                                                ownTeam: int)
    requires SelExactly(s, prefix, q, ownTeam)
    requires IsSelectedTarget(q.ents, ToHandle(d), ownTeam)
    ensures var r := SelHit(q, d, damage, ownTeam);
            && r.ents.Keys == s.ents.Keys
            && (forall h :: h in s.ents && h !in r.signaled ==> r.ents[h] == s.ents[h])
            && (forall h :: h in r.signaled ==> FromHandle(h) in prefix + [d] && IsSelectedTarget(s.ents, h, ownTeam))
            && (forall x :: x in prefix + [d] && IsSelectedTarget(s.ents, ToHandle(x), ownTeam) ==>
                  ToHandle(x) in r.signaled)
  {
    var u := ToHandle(d);
    assert FromHandle(u) == d;
    assert forall x :: x in prefix + [d] <==> x in prefix || x == d;
    if u !in q.signaled {
      assert q.ents[u] == s.ents[u];
    }
  }

  lemma {:induction false} SelSkipsOther(s: SelState, prefix: seq<EntityData>, d: EntityData, q: SelState, damage: real, ownTeam: int)
    requires SelExactly(s, prefix, q, ownTeam)
    requires !IsSelectedTarget(q.ents, ToHandle(d), ownTeam)
    ensures SelExactly(s, prefix + [d], SelHit(q, d, damage, ownTeam), ownTeam)
  {
    var u := ToHandle(d);
    assert forall x :: x in prefix + [d] <==> x in prefix || x == d;
    if u in s.ents && u !in q.signaled {
      assert q.ents[u] == s.ents[u];
    }
  }
}
