/**
 * The archetype table `UNIT_DATA` of game_integrated/simple_rts/data/units.js:
 * a constant object literal from a type key to the stats a new unit copies.
 */
module Archetypes {
  import opened Common
  import opened Damage

  /** The three keys of the table. */
  datatype UnitKind = Marine | Zealot | Zergling

  /**
   * One row of the table. Every number is a JavaScript number, so it is
   * modelled as a `real`; `attackCooldown` is counted in frames.
   */
  datatype Archetype = Archetype(
    name: string,
    mineralCost: real,
    gasCost: real,
    maxHp: real,
    maxShield: real,
    speed: real,
    attackPower: real,
    attackRange: real,
    attackCooldown: real,
    armor: real,
    size: real,
    color: string)

  /** The key of a kind in the table. */
  function Key(k: UnitKind): string
  {
    match k
    case Marine => "marine"
    case Zealot => "zealot"
    case Zergling => "zergling"
  }

  /** `UNIT_DATA[key]` as a kind: `None` for a key the table does not hold. */
  function KindOf(key: string): (r: Option<UnitKind>)
    ensures r.Some? ==> Key(r.value) == key
  {
    if key == "marine" then Some(Marine)
    else if key == "zealot" then Some(Zealot)
    else if key == "zergling" then Some(Zergling)
    else None
  }

  /** The row of the table for a kind. */
  function Data(k: UnitKind): Archetype
  {
    match k
    case Marine =>
      Archetype("마린", 50.0, 0.0, 40.0, 0.0, 3.5, 6.0, 120.0, 15.0, 0.0, 16.0, "#00ff00")
    case Zealot =>
      Archetype("질럿", 100.0, 0.0, 100.0, 60.0, 3.0, 16.0, 20.0, 22.0, 1.0, 18.0, "#ffaa00")
    case Zergling =>
      Archetype("저글링", 25.0, 0.0, 35.0, 0.0, 4.5, 5.0, 15.0, 12.0, 0.0, 14.0, "#ff0000")
  }

  /** The table holds exactly the keys marine, zealot and zergling, each naming its own kind. */
  lemma TableKeys(key: string)
    ensures KindOf(key).Some? <==> key in {"marine", "zealot", "zergling"}
    ensures forall k: UnitKind :: KindOf(Key(k)) == Some(k)
  {
    forall k: UnitKind ensures KindOf(Key(k)) == Some(k) {
      match k
      case Marine =>
      case Zealot =>
      case Zergling =>
    }
  }

  /** Every archetype has positive hit points, speed, cooldown and size, and non-negative shield and armor. */
  lemma StatsPositive(k: UnitKind)
    ensures Data(k).maxHp > 0.0 && Data(k).speed > 0.0
    ensures Data(k).attackCooldown > 0.0 && Data(k).size > 0.0
    ensures Data(k).maxShield >= 0.0 && Data(k).armor >= 0.0
  {}

  /** Only the zealot carries a shield (60) and armor (1); the others have 0 of both. */
  lemma OnlyZealotShielded(k: UnitKind)
    ensures Data(k).maxShield > 0.0 <==> k == Zealot
    ensures Data(k).armor > 0.0 <==> k == Zealot
    ensures k == Zealot ==> Data(k).maxShield == 60.0 && Data(k).armor == 1.0
    ensures k != Zealot ==> Data(k).maxShield == 0.0 && Data(k).armor == 0.0
  {}

  /** The marine row. */
  lemma MarineStats()
    ensures var m := Data(Marine);
      m.maxHp == 40.0 && m.attackPower == 6.0 && m.attackRange == 120.0 &&
      m.attackCooldown == 15.0 && m.speed == 3.5 && m.armor == 0.0
  {}

  /**
   * Under the combat rule (power minus armor, at least 1) a marine hits a
   * zealot for 5 and a zergling hits it for 4, while a zealot hits either
   * unarmored kind for its full 16.
   */
  lemma MatchupDamage()
    ensures DamageAmount(Data(Marine).attackPower, Data(Zealot).armor) == 5.0
    ensures DamageAmount(Data(Zergling).attackPower, Data(Zealot).armor) == 4.0
    ensures DamageAmount(Data(Zealot).attackPower, Data(Marine).armor) == 16.0
    ensures DamageAmount(Data(Zealot).attackPower, Data(Zergling).armor) == 16.0
  {}
}
