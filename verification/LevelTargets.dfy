// Choosing the base level and the level size targets from the data
// (advanced_options.h:476-519, level_compaction_dynamic_level_bytes).
module LevelTargets {

  // max_bytes_for_level_base, max_bytes_for_level_multiplier, num_levels.
  datatype Options = Options(base: real, multiplier: real, numLevels: nat) {
    predicate Valid() {
      base > 0.0 && multiplier > 1.0 && numLevels >= 2
    }
  }

  // x divided by the multiplier k times: the target k levels above one whose
  // target is x.
  function Down(x: real, m: real, k: nat): real
    requires m > 1.0
  {
    if k == 0 then x else Down(x, m, k - 1) / m
  }

  function Largest(sizes: seq<real>): (r: real)
    ensures r >= 0.0
    ensures forall i | 0 <= i < |sizes| :: sizes[i] <= r
    ensures r == 0.0 || r in sizes
  {
    if sizes == [] then 0.0
    else
      var before := Largest(sizes[..|sizes| - 1]);
      assert forall i | 0 <= i < |sizes| - 1 :: sizes[i] == sizes[..|sizes| - 1][i];
      if sizes[|sizes| - 1] > before then sizes[|sizes| - 1] else before
  }

  // The last level's target: the size of the largest level, but no less
  // than the base size with which an empty DB starts.
  function LastTarget(o: Options, sizes: seq<real>): real {
    if Largest(sizes) > o.base then Largest(sizes) else o.base
  }

  predicate InBaseRange(o: Options, x: real)
    requires o.Valid()
  {
    o.base / o.multiplier < x <= o.base
  }

  // b is a base level: counting down from the last level by the multiplier
  // its target lands in (base / multiplier, base].
  predicate IsBaseLevel(o: Options, lastTarget: real, b: nat)
    requires o.Valid()
  {
    1 <= b < o.numLevels && InBaseRange(o, Down(lastTarget, o.multiplier, o.numLevels - 1 - b))
  }

  // ----- scaling by the multiplier -----

  lemma ScaleOrder(p: real, q: real, m: real)
    requires m > 0.0
    ensures p < q <==> p * m < q * m
  {
    if p < q {
      assert (q - p) * m > 0.0;
    } else {
      assert (p - q) * m >= 0.0;
    }
  }

  lemma DivPositive(x: real, y: real, m: real)
    requires m > 1.0 && 0.0 < x <= y
    ensures 0.0 < x / m < x && x / m <= y / m
    ensures x < y ==> x / m < y / m
    ensures (x / m) * m == x
  {
    var p, q := x / m, y / m;
    assert p * m == x && q * m == y;
    ScaleOrder(0.0, p, m);
    ScaleOrder(q, p, m);
    ScaleOrder(p, q, m);
    ScaleOrder(1.0, m, p);
  }

  lemma {:induction false} DownPositive(x: real, m: real, k: nat)
    requires m > 1.0 && x > 0.0
    ensures Down(x, m, k) > 0.0
  {
    if k > 0 {
      DownPositive(x, m, k - 1);
      DivPositive(Down(x, m, k - 1), Down(x, m, k - 1), m);
    }
  }

  lemma {:induction false} DownMonotone(x: real, y: real, m: real, k: nat)
    requires m > 1.0 && 0.0 < x <= y
    ensures 0.0 < Down(x, m, k) <= Down(y, m, k)
  {
    if k > 0 {
      DownMonotone(x, y, m, k - 1);
      DivPositive(Down(x, m, k - 1), Down(y, m, k - 1), m);
    }
  }

  // One level up or more, a target shrinks at least by the multiplier.
  lemma {:induction false} DownShrinks(x: real, m: real, j: nat, k: nat)
    requires m > 1.0 && x > 0.0 && j < k
    ensures Down(x, m, k) <= Down(x, m, j) / m
    decreases k
  {
    DownPositive(x, m, j);
    if j < k - 1 {
      DownShrinks(x, m, j, k - 1);
      DownPositive(x, m, k - 1);
      var d := Down(x, m, j) / m;
      DivPositive(Down(x, m, k - 1), d, m);
      DivPositive(d, d, m);
    }
  }

  // ----- the choice of base level -----

  lemma BaseLevelUnique(o: Options, t: real, b: nat, c: nat)
    requires o.Valid() && t >= o.base
    requires IsBaseLevel(o, t, b) && IsBaseLevel(o, t, c)
    ensures b == c
  {
    if b != c {
      var lo, hi := if b < c then b else c, if b < c then c else b;
      BaseLevelNotAbove(o, t, t, lo, hi);
    }
  }

  // If hi is a base level for t, no lower-numbered level is one for any
  // amount of data that is at most t.
  lemma BaseLevelNotAbove(o: Options, s: real, t: real, lo: nat, hi: nat)
    requires o.Valid() && o.base <= s <= t
    requires 1 <= lo < hi < o.numLevels && IsBaseLevel(o, t, hi)
    ensures !IsBaseLevel(o, s, lo)
  {
    var last, m := o.numLevels - 1, o.multiplier;
    DownShrinks(s, m, last - hi, last - lo);
    DownMonotone(s, t, m, last - hi);
    DivPositive(Down(s, m, last - hi), o.base, m);
  }

  // As data grows the base level only moves up, towards level 1.
  lemma BaseLevelMovesUp(o: Options, s: real, t: real, b: nat, c: nat)
    requires o.Valid() && o.base <= s <= t
    requires IsBaseLevel(o, s, b) && IsBaseLevel(o, t, c)
    ensures c <= b
  {
    if b < c { BaseLevelNotAbove(o, s, t, b, c); }
  }

  // Some level qualifies exactly when the last level's target, brought up
  // to level 1, is no more than the base size.
  lemma EnoughLevelsExactly(o: Options, t: real)
    requires o.Valid() && t >= o.base
    ensures (exists b :: IsBaseLevel(o, t, b)) <==> Down(t, o.multiplier, o.numLevels - 2) <= o.base
  {
    var last, m := o.numLevels - 1, o.multiplier;
    if Down(t, m, last - 1) <= o.base {
      var b := FindBaseLevel(o, t, last);
      assert IsBaseLevel(o, t, b);
    } else {
      forall b: nat | 1 <= b < o.numLevels ensures !IsBaseLevel(o, t, b) {
        if b > 1 {
          DownShrinks(t, m, last - b, last - 1);
          DownPositive(t, m, last - b);
          DivPositive(Down(t, m, last - b), Down(t, m, last - b), m);
        }
      }
    }
  }

  lemma {:induction false} FindBaseLevel(o: Options, t: real, b: nat) returns (r: nat)
    requires o.Valid() && t >= o.base
    requires 1 <= b < o.numLevels && Down(t, o.multiplier, o.numLevels - 2) <= o.base
    requires o.base / o.multiplier < Down(t, o.multiplier, o.numLevels - 1 - b) || b == o.numLevels - 1
    ensures IsBaseLevel(o, t, r)
    decreases b
  {
    var last, m := o.numLevels - 1, o.multiplier;
    var x := Down(t, m, last - b);
    DivPositive(o.base, o.base, m);
    if x <= o.base {
      r := b;
    } else {
      DivPositive(o.base, x, m);
      r := FindBaseLevel(o, t, b - 1);
    }
  }

  // ----- the search -----

  datatype Plan = NotEnoughLevels | Plan(baseLevel: nat, targets: seq<real>)

  // targets[l] for levels 0..last; 0 for the levels above the base, which
  // stay empty.
  ghost predicate MeetsRule(o: Options, sizes: seq<real>, p: Plan)
    requires o.Valid() && p.Plan?
  {
    var last := o.numLevels - 1;
    && |p.targets| == o.numLevels
    && 1 <= p.baseLevel <= last
    && InBaseRange(o, p.targets[p.baseLevel])
    && p.targets[last] == LastTarget(o, sizes)
    && (forall l | 0 <= l < p.baseLevel :: p.targets[l] == 0.0)
    && AdjacentByMultiplier(p.targets, p.baseLevel, o.multiplier)
  }

  // Try the last level first and move up while its target is too large.
  function PlanFrom(o: Options, sizes: seq<real>, b: nat): (p: Plan)
    requires o.Valid() && 1 <= b < o.numLevels
    requires b == o.numLevels - 1 || Down(LastTarget(o, sizes), o.multiplier, o.numLevels - 2 - b) > o.base
    ensures p.Plan? ==> MeetsRule(o, sizes, p) && IsBaseLevel(o, LastTarget(o, sizes), p.baseLevel)
    ensures p.Plan? <==> exists c :: IsBaseLevel(o, LastTarget(o, sizes), c)
    decreases b
  {
    var t, last := LastTarget(o, sizes), o.numLevels - 1;
    EnoughLevelsExactly(o, t);
    if Down(t, o.multiplier, last - b) > o.base then
      if b > 1 then PlanFrom(o, sizes, b - 1) else NotEnoughLevels
    else
      StopsInRange(o, t, b);
      PlanMeetsRule(o, sizes, b, TargetsFrom(o, t, b));
      Plan(b, Unused(b) + TargetsFrom(o, t, b))
  }

  function PlanLevels(o: Options, sizes: seq<real>): (p: Plan)
    requires o.Valid()
    ensures p.Plan? ==> MeetsRule(o, sizes, p)
    ensures p.Plan? <==> exists b :: IsBaseLevel(o, LastTarget(o, sizes), b)
  {
    PlanFrom(o, sizes, o.numLevels - 1)
  }

  lemma StopsInRange(o: Options, t: real, b: nat)
    requires o.Valid() && t >= o.base && 1 <= b < o.numLevels
    requires b == o.numLevels - 1 || Down(t, o.multiplier, o.numLevels - 2 - b) > o.base
    requires Down(t, o.multiplier, o.numLevels - 1 - b) <= o.base
    ensures IsBaseLevel(o, t, b)
  {
    DivPositive(o.base, o.base, o.multiplier);
    if b < o.numLevels - 1 {
      DivPositive(o.base, Down(t, o.multiplier, o.numLevels - 2 - b), o.multiplier);
    }
  }

  function TargetsFrom(o: Options, t: real, b: nat): (s: seq<real>)
    requires o.Valid() && b < o.numLevels
    ensures |s| == o.numLevels - b && Scaled(s, t, o.multiplier)
    decreases o.numLevels - b
  {
    var first := Down(t, o.multiplier, o.numLevels - 1 - b);
    if b == o.numLevels - 1 then [first] else [first] + TargetsFrom(o, t, b + 1)
  }

  // The last target is t, each one before it the next divided by m.
  ghost predicate Scaled(targets: seq<real>, t: real, m: real)
    requires m > 1.0
  {
    forall i | 0 <= i < |targets| :: targets[i] == Down(t, m, |targets| - 1 - i)
  }

  lemma DownStep(t: real, m: real, k: nat, x: real, y: real)
    requires m > 1.0 && x == Down(t, m, k + 1) && y == Down(t, m, k)
    ensures y == x * m
  {
    assert x == y / m;
  }

  ghost predicate AdjacentByMultiplier(all: seq<real>, b: nat, m: real) {
    forall l, k | b <= l < k < |all| && k == l + 1 :: all[k] == all[l] * m
  }

  lemma ScaledIsAdjacent(all: seq<real>, b: nat, t: real, m: real)
    requires m > 1.0 && forall l | b <= l < |all| :: all[l] == Down(t, m, |all| - 1 - l)
    ensures AdjacentByMultiplier(all, b, m)
  {
    forall l, k | b <= l < k < |all| && k == l + 1 ensures all[k] == all[l] * m {
      DownStep(t, m, |all| - 1 - k, all[l], all[k]);
    }
  }

  lemma PlanMeetsRule(o: Options, sizes: seq<real>, b: nat, targets: seq<real>)
    requires o.Valid() && 1 <= b < o.numLevels && |targets| == o.numLevels - b
    requires Scaled(targets, LastTarget(o, sizes), o.multiplier) && InBaseRange(o, targets[0])
    ensures MeetsRule(o, sizes, Plan(b, Unused(b) + targets))
  {
    var all := Unused(b) + targets;
    assert forall l | b <= l < |all| :: all[l] == targets[l - b];
    assert all[o.numLevels - 1] == targets[|targets| - 1];
    ScaledIsAdjacent(all, b, LastTarget(o, sizes), o.multiplier);
  }

  function Unused(n: nat): (s: seq<real>)
    ensures |s| == n && forall i | 0 <= i < n :: s[i] == 0.0
  {
    if n == 0 then [] else [0.0] + Unused(n - 1)
  }

  // The documented conditions leave no choice: at most one plan meets them.
  lemma RuleDeterminesPlan(o: Options, sizes: seq<real>, p: Plan, q: Plan)
    requires o.Valid() && p.Plan? && q.Plan?
    requires MeetsRule(o, sizes, p) && MeetsRule(o, sizes, q)
    ensures p == q
  {
    RuleGivesTargets(o, sizes, p, p.baseLevel);
    RuleGivesTargets(o, sizes, q, q.baseLevel);
    BaseLevelUnique(o, LastTarget(o, sizes), p.baseLevel, q.baseLevel);
    forall l | 0 <= l < o.numLevels ensures p.targets[l] == q.targets[l] {
      if l >= p.baseLevel {
        RuleGivesTargets(o, sizes, p, l);
        RuleGivesTargets(o, sizes, q, l);
      }
    }
  }

  lemma {:induction false} RuleGivesTargets(o: Options, sizes: seq<real>, p: Plan, l: nat)
    requires o.Valid() && p.Plan? && MeetsRule(o, sizes, p)
    requires p.baseLevel <= l < o.numLevels
    ensures p.targets[l] == Down(LastTarget(o, sizes), o.multiplier, o.numLevels - 1 - l)
    decreases o.numLevels - l
  {
    if l < o.numLevels - 1 {
      RuleGivesTargets(o, sizes, p, l + 1);
      AdjacentTargets(p.targets, p.baseLevel, o.multiplier, l);
    }
  }

  lemma AdjacentTargets(all: seq<real>, b: nat, m: real, l: nat)
    requires m > 1.0 && AdjacentByMultiplier(all, b, m) && b <= l < |all| - 1
    ensures all[l] == all[l + 1] / m
  {
    var x, y := all[l], all[l + 1];
    assert y == x * m;
  }

  // So the search finds exactly the plan that meets the conditions.
  lemma PlanIsTheRule(o: Options, sizes: seq<real>, p: Plan)
    requires o.Valid() && p.Plan?
    ensures PlanLevels(o, sizes) == p <==> MeetsRule(o, sizes, p)
  {
    if MeetsRule(o, sizes, p) {
      RuleGivesTargets(o, sizes, p, p.baseLevel);
      assert IsBaseLevel(o, LastTarget(o, sizes), p.baseLevel);
      RuleDeterminesPlan(o, sizes, PlanLevels(o, sizes), p);
    }
  }

  // The documented targets for multiplier 10, 6 levels and a base of 10
  // (megabytes), as the largest level grows. Level 0 has no target.
  lemma DocumentedExamples(o: Options, sizes: seq<real>)
    requires o == Options(10.0, 10.0, 6)
    ensures Largest(sizes) <= 10.0 ==> PlanLevels(o, sizes) == Plan(5, [0.0, 0.0, 0.0, 0.0, 0.0, 10.0])
    ensures Largest(sizes) == 11.0 ==> PlanLevels(o, sizes) == Plan(4, [0.0, 0.0, 0.0, 0.0, 1.1, 11.0])
    ensures Largest(sizes) == 50.0 ==> PlanLevels(o, sizes) == Plan(4, [0.0, 0.0, 0.0, 0.0, 5.0, 50.0])
    ensures Largest(sizes) == 101.0 ==> PlanLevels(o, sizes) == Plan(3, [0.0, 0.0, 0.0, 1.01, 10.1, 101.0])
    ensures Largest(sizes) == 500.0 ==> PlanLevels(o, sizes) == Plan(3, [0.0, 0.0, 0.0, 5.0, 50.0, 500.0])
    ensures Largest(sizes) == 1001.0 ==> PlanLevels(o, sizes) == Plan(2, [0.0, 0.0, 1.001, 10.01, 100.1, 1001.0])
  {
    PlanIsTheRule(o, sizes, Plan(5, [0.0, 0.0, 0.0, 0.0, 0.0, 10.0]));
    PlanIsTheRule(o, sizes, Plan(4, [0.0, 0.0, 0.0, 0.0, 1.1, 11.0]));
    PlanIsTheRule(o, sizes, Plan(4, [0.0, 0.0, 0.0, 0.0, 5.0, 50.0]));
    PlanIsTheRule(o, sizes, Plan(3, [0.0, 0.0, 0.0, 1.01, 10.1, 101.0]));
    PlanIsTheRule(o, sizes, Plan(3, [0.0, 0.0, 0.0, 5.0, 50.0, 500.0]));
    PlanIsTheRule(o, sizes, Plan(2, [0.0, 0.0, 1.001, 10.01, 100.1, 1001.0]));
  }
}
