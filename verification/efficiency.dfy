/** The distance penalty on construction work: full efficiency close to the
    kit, a linear falloff further away and a hard cutoff beyond the maximal
    workshop range. Both workshop generations compute it the same way
    (GroundWorkshop.update_distance_mod and
    VesselKitWorkshop.current_task_distance_mod). */
module Efficiency {
  import opened Common

  /** The three tunables read from the global configuration:
      MinDistanceToWorkshop, MaxDistanceToWorkshop, MaxDistanceEfficiency. */
  datatype DistanceLimits = DistanceLimits(minDistance: real, maxDistance: real, maxEfficiency: real) {
    predicate Valid() {
      0.0 <= minDistance < maxDistance && 0.0 <= maxEfficiency <= 1.0
    }
  }

  function Clamp01(t: real): (c: real)
    ensures 0.0 <= c <= 1.0
    ensures 0.0 <= t <= 1.0 ==> c == t
  {
    if t < 0.0 then 0.0 else if t > 1.0 then 1.0 else t
  }

  /** Unity's Mathf.Lerp, which clamps the parameter into [0, 1]. */
  function Lerp(a: real, b: real, t: real): real {
    a + Scale(b - a, Clamp01(t))
  }

  /** The interpolation parameter: (dist - min) / max, never negative. */
  function Falloff(lim: DistanceLimits, dist: real): (t: real)
    requires lim.Valid()
    ensures t >= 0.0
  {
    MaxReal((dist - lim.minDistance) / lim.maxDistance, 0.0)
  }

  /** The efficiency factor at distance `dist` from the kit. */
  function DistanceMod(lim: DistanceLimits, dist: real): (m: real)
    requires lim.Valid()
    ensures dist > lim.maxDistance ==> m == 0.0
    ensures dist <= lim.minDistance ==> m == 1.0
    ensures dist <= lim.maxDistance ==> lim.maxEfficiency <= m <= 1.0
  {
    if dist > lim.maxDistance then 0.0
    else
      var t := Falloff(lim, dist);
      FalloffInRange(lim, dist);
      LerpBetween(lim.maxEfficiency, t);
      Lerp(1.0, lim.maxEfficiency, t)
  }

  lemma FalloffInRange(lim: DistanceLimits, dist: real)
    requires lim.Valid() && dist <= lim.maxDistance
    ensures Falloff(lim, dist) <= 1.0
    ensures dist <= lim.minDistance ==> Falloff(lim, dist) == 0.0
  {
    assert dist - lim.minDistance <= lim.maxDistance;
    DivAtMostOne(dist - lim.minDistance, lim.maxDistance);
    if dist <= lim.minDistance {
      DivNonPositive(dist - lim.minDistance, lim.maxDistance);
    }
  }

  lemma DivAtMostOne(x: real, y: real)
    requires 0.0 < y && x <= y
    ensures x / y <= 1.0
  {
    assert x / y * y == x;
  }

  lemma DivNonPositive(x: real, y: real)
    requires 0.0 < y && x <= 0.0
    ensures x / y <= 0.0
  {
    assert x / y * y == x;
  }

  /** Interpolating from 1 towards an efficiency e <= 1 stays within [e, 1]. */
  lemma LerpBetween(e: real, t: real)
    requires 0.0 <= e <= 1.0
    ensures e <= Lerp(1.0, e, t) <= 1.0
  {
    LerpFromOne(e, t);
    ScaleWithin(1.0 - e, Clamp01(t));
  }

  /** Interpolating from 1 to e subtracts the scaled gap 1 - e. */
  lemma LerpFromOne(e: real, t: real)
    ensures Lerp(1.0, e, t) == 1.0 - Scale(1.0 - e, Clamp01(t))
  {
  }

  /** The falloff parameter grows with the distance. */
  lemma FalloffMonotonic(lim: DistanceLimits, d1: real, d2: real)
    requires lim.Valid() && d1 <= d2
    ensures Falloff(lim, d1) <= Falloff(lim, d2)
  {
    var a := d1 - lim.minDistance;
    var b := d2 - lim.minDistance;
    assert a / lim.maxDistance <= b / lim.maxDistance by {
      assert (b / lim.maxDistance - a / lim.maxDistance) * lim.maxDistance == b - a;
    }
  }

  /** Efficiency never increases with the distance to the kit. */
  lemma DistanceModMonotonic(lim: DistanceLimits, d1: real, d2: real)
    requires lim.Valid() && d1 <= d2
    ensures DistanceMod(lim, d2) <= DistanceMod(lim, d1)
  {
    if d2 <= lim.maxDistance {
      FalloffMonotonic(lim, d1, d2);
      assert Clamp01(Falloff(lim, d1)) <= Clamp01(Falloff(lim, d2));
      ScaleMonotonic(1.0 - lim.maxEfficiency, Clamp01(Falloff(lim, d1)), Clamp01(Falloff(lim, d2)));
      LerpFromOne(lim.maxEfficiency, Falloff(lim, d1));
      LerpFromOne(lim.maxEfficiency, Falloff(lim, d2));
    }
  }

  /** With a positive far-range efficiency, the factor is zero exactly when
      the kit is out of range. */
  lemma DistanceModZeroIff(lim: DistanceLimits, dist: real)
    requires lim.Valid() && lim.maxEfficiency > 0.0
    ensures DistanceMod(lim, dist) == 0.0 <==> dist > lim.maxDistance
  {
  }
}
