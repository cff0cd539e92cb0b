/**
 * The damage rule shared by every port of the simulation: how much an attack
 * removes, and how a shield absorbs it before hit points do.
 */
module Damage {

  /**
   * `calculateDamage` in game_integrated/test/combat.js: attack power minus
   * armor, but never less than one point.
   */
  function DamageAmount(attackPower: real, armor: real): (d: real)
    ensures d >= 1.0 && d >= attackPower - armor
    ensures d == 1.0 || d == attackPower - armor
  {
    var raw := attackPower - armor;
    if raw < 1.0 then 1.0 else raw
  }

  /** Shield and hit points of a unit after a hit. */
  datatype Vitals = Vitals(shield: real, hp: real)

  /**
   * Shield-first damage: a positive shield absorbs the hit, and whatever
   * the shield cannot absorb spills into hit points, the shield stopping
   * at zero. A unit whose shield is not positive takes the hit on its hit
   * points. Every port (the JavaScript `attack`, and `performAttack` in the
   * C++ ports) applies damage with this rule.
   */
  function ApplyDamage(v: Vitals, damage: real): (r: Vitals)
  {
    if v.shield > 0.0 then
      var s := v.shield - damage;
      if s < 0.0 then Vitals(0.0, v.hp + s) else Vitals(s, v.hp)
    else
      Vitals(v.shield, v.hp - damage)
  }

  /** Whatever the split, shield plus hit points drops by exactly the damage. */
  lemma ApplyDamageTotal(v: Vitals, damage: real)
    ensures ApplyDamage(v, damage).shield + ApplyDamage(v, damage).hp == v.shield + v.hp - damage
  {}

  /**
   * For a non-negative hit on a non-negative shield the shield stays within
   * [0, old shield]; a shield that was not positive leaves the whole hit to
   * the hit points, which are not clamped.
   */
  lemma ApplyDamageShield(v: Vitals, damage: real)
    requires 0.0 <= v.shield && 0.0 <= damage
    ensures 0.0 <= ApplyDamage(v, damage).shield <= v.shield
    ensures v.shield == 0.0 ==> ApplyDamage(v, damage) == Vitals(0.0, v.hp - damage)
    ensures damage <= v.shield ==> ApplyDamage(v, damage) == Vitals(v.shield - damage, v.hp)
    ensures v.shield < damage ==> ApplyDamage(v, damage) == Vitals(0.0, v.hp - (damage - v.shield))
  {}
}
