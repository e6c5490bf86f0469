/**
 * The damage formula shared by the raid service and the sync script: ten points
 * per delivery, doubled when it rained or a surge was on, then scaled by the
 * raid's buff and rounded down.
 *
 * Multipliers are exact reals; the IEEE-754 rounding of the source's numbers is
 * not modelled.
 */
module Damage {
  const BaseDamagePerDelivery: int := 10
  const WeatherBonusMultiplier: real := 2.0
  const SurgeBonusMultiplier: real := 2.0

  /** `bonusMultiplier` is the combined weather-and-buff factor, as the source returns it. */
  datatype Damage = Damage(baseDamage: int, bonusMultiplier: real, totalDamage: int)

  /** 2.0 when it rained or a surge was on (both together do not stack), 1.0 otherwise. */
  function WeatherFactor(isRainy: bool, hasSurge: bool): real {
    if isRainy then WeatherBonusMultiplier
    else if hasSurge then SurgeBonusMultiplier
    else 1.0
  }

  function Calculate(deliveryCount: int, isRainy: bool, hasSurge: bool, buff: real): (d: Damage)
    ensures d.baseDamage == 10 * deliveryCount
    ensures d.bonusMultiplier == (if isRainy || hasSurge then 2.0 else 1.0) * buff
    ensures d.totalDamage as real <= d.baseDamage as real * d.bonusMultiplier < d.totalDamage as real + 1.0
    ensures deliveryCount >= 0 && buff >= 0.0 ==> d.totalDamage >= 0
  {
    var base := deliveryCount * BaseDamagePerDelivery;
    var multiplier := WeatherFactor(isRainy, hasSurge) * buff;
    Damage(base, multiplier, (base as real * multiplier).Floor)
  }

  /** Rounding down is monotone. */
  lemma FloorMonotone(x: real, y: real)
    requires x <= y
    ensures x.Floor <= y.Floor
  {
    assert x.Floor as real <= x < x.Floor as real + 1.0;
    assert y.Floor as real <= y < y.Floor as real + 1.0;
  }

  lemma ScaleMonotone(a: real, b: real, m: real)
    requires a <= b && m >= 0.0
    ensures a * m <= b * m
  {
    assert b * m - a * m == (b - a) * m;
  }

  lemma ScaledFloorMonotone(a: real, b: real, m: real)
    requires a <= b && m >= 0.0
    ensures (a * m).Floor <= (b * m).Floor
  {
    ScaleMonotone(a, b, m);
    FloorMonotone(a * m, b * m);
  }

  /** More deliveries never deal less damage (for a non-negative buff). */
  lemma CalculateMonotone(c1: int, c2: int, isRainy: bool, hasSurge: bool, buff: real)
    requires 0 <= c1 <= c2 && buff >= 0.0
    ensures Calculate(c1, isRainy, hasSurge, buff).totalDamage <= Calculate(c2, isRainy, hasSurge, buff).totalDamage
  {
    var f := WeatherFactor(isRainy, hasSurge);
    var m := f * buff;
    var a := (c1 * BaseDamagePerDelivery) as real;
    var b := (c2 * BaseDamagePerDelivery) as real;
    assert m >= 0.0 by {
      assert f >= 1.0;
      ScaleMonotone(0.0, buff, f);
    }
    ScaledFloorMonotone(a, b, m);
    assert Calculate(c1, isRainy, hasSurge, buff).totalDamage == (a * m).Floor;
    assert Calculate(c2, isRainy, hasSurge, buff).totalDamage == (b * m).Floor;
  }

  /** Rain alone, a surge alone and both together give the same result. */
  lemma RainOrSurgeAlike(deliveryCount: int, buff: real)
    ensures Calculate(deliveryCount, true, false, buff) == Calculate(deliveryCount, false, true, buff)
    ensures Calculate(deliveryCount, true, true, buff) == Calculate(deliveryCount, true, false, buff)
    ensures Calculate(deliveryCount, true, false, buff).bonusMultiplier == 2.0 * buff
  {
  }

  /** With the default arguments (no rain, no surge, buff 1.0) every delivery is worth 10. */
  lemma DefaultsGiveTenPerDelivery(deliveryCount: int)
    ensures Calculate(deliveryCount, false, false, 1.0) == Damage(10 * deliveryCount, 1.0, 10 * deliveryCount)
  {
  }

  /** A rainy day of five deliveries under a 1.5 buff: 50 base, factor 3.0, 150 total. */
  lemma RainyBuffedExample()
    ensures Calculate(5, true, false, 1.5) == Damage(50, 3.0, 150)
  {
  }

  /** A fractional product is rounded down: 3 deliveries under a 1.25 buff deal 37. */
  lemma RoundsDownExample()
    ensures Calculate(3, false, false, 1.25).totalDamage == 37
  {
    assert 30.0 * 1.25 == 37.5;
  }
}
