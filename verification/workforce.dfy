/** The workshop's workforce: every crew member whose trait carries one of
    the engineering effects (drill, converter or repair skill) contributes
    their experience level; everybody else contributes nothing. */
module Workforce {

  /** The experience effects a crew member's trait may carry. */
  datatype Effect = DrillSkill | ConverterSkill | RepairSkill | OtherEffect

  /** A crew member as the workshop sees them: their trait's effects and
      their experience level. */
  datatype Kerbal = Kerbal(effects: seq<Effect>, experienceLevel: nat)

  predicate IsEngineering(e: Effect) {
    e.DrillSkill? || e.ConverterSkill? || e.RepairSkill?
  }

  /** The trait carries at least one engineering effect. */
  predicate Qualified(k: Kerbal) {
    exists i :: 0 <= i < |k.effects| && IsEngineering(k.effects[i])
  }

  function Contribution(k: Kerbal): nat {
    if Qualified(k) then k.experienceLevel else 0
  }

  /** Reference definition: the sum of the contributions, crew member by
      crew member. */
  function Workforce(crew: seq<Kerbal>): nat {
    if |crew| == 0 then 0
    else Workforce(crew[..|crew| - 1]) + Contribution(crew[|crew| - 1])
  }

  /** GroundWorkshop.update_workers, loop for loop: the inner loop looks for
      an engineering effect and stops at the first one. */
  method UpdateWorkers(crew: seq<Kerbal>) returns (workers: nat)
    ensures workers == Workforce(crew)
  {
    workers := 0;
    var i := 0;
    while i < |crew|
      invariant 0 <= i <= |crew|
      invariant workers == Workforce(crew[..i])
    {
      var worker := 0;
      var kerbal := crew[i];
      var j := 0;
      while j < |kerbal.effects|
        invariant 0 <= j <= |kerbal.effects|
        invariant worker == 0 || worker == 1
        invariant worker == 0 ==> forall k :: 0 <= k < j ==> !IsEngineering(kerbal.effects[k])
        invariant worker == 1 ==> Qualified(kerbal)
      {
        if IsEngineering(kerbal.effects[j]) {
          worker := 1;
          break;
        }
        j := j + 1;
      }
      worker := worker * kerbal.experienceLevel;
      workers := workers + worker;
      assert crew[..i + 1][..i] == crew[..i];
      i := i + 1;
    }
    assert crew[..|crew|] == crew;
  }

  /** The workforce of two crews together is the sum of their workforces:
      every crew member counts independently of the others. */
  lemma {:induction false} WorkforceAppend(a: seq<Kerbal>, b: seq<Kerbal>)
    ensures Workforce(a + b) == Workforce(a) + Workforce(b)
    decreases |b|
  {
    if |b| == 0 {
      assert a + b == a;
    } else {
      var b' := b[..|b| - 1];
      assert (a + b)[..|a + b| - 1] == a + b';
      assert (a + b)[|a + b| - 1] == b[|b| - 1];
      WorkforceAppend(a, b');
    }
  }

  /** The workforce is zero exactly when no crew member contributes:
      nobody has an engineering effect with a positive level. */
  lemma {:induction false} WorkforceZeroIff(crew: seq<Kerbal>)
    ensures Workforce(crew) == 0 <==> forall i :: 0 <= i < |crew| ==> Contribution(crew[i]) == 0
    decreases |crew|
  {
    if |crew| > 0 {
      var init := crew[..|crew| - 1];
      WorkforceZeroIff(init);
      assert forall i :: 0 <= i < |init| ==> init[i] == crew[i];
    }
  }

  /** The workforce never exceeds the total experience of the crew, and
      equals it when everyone is an engineer. */
  lemma {:induction false} WorkforceBounded(crew: seq<Kerbal>)
    ensures Workforce(crew) <= TotalExperience(crew)
    ensures (forall i :: 0 <= i < |crew| ==> Qualified(crew[i])) ==> Workforce(crew) == TotalExperience(crew)
    decreases |crew|
  {
    if |crew| > 0 {
      var init := crew[..|crew| - 1];
      WorkforceBounded(init);
      assert forall i :: 0 <= i < |init| ==> init[i] == crew[i];
    }
  }

  function TotalExperience(crew: seq<Kerbal>): nat {
    if |crew| == 0 then 0
    else TotalExperience(crew[..|crew| - 1]) + crew[|crew| - 1].experienceLevel
  }
}
