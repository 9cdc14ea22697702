/**
 * Weighted round robin when the packet counter is shared: g_pkt_wrr_seq in src/core/flow_table.c
 * is one counter for all profiles, so a profile may see only every g-th number of it.
 */
module Stride {
  import opened Remainders
  import opened WanScheduler

  // ---- greatest common divisors ----

  function Gcd(a: nat, b: nat): nat
    decreases b
  {
    if b == 0 then a else Gcd(b, Mod(a, b))
  }

  lemma Combine(a: nat, b: nat, q: nat, r: nat, x: int, y: int)
    requires a == q * b + r
    ensures a * y + b * (x - q * y) == b * x + r * y
  {
    assert a * y == q * b * y + r * y;
    assert b * (x - q * y) == b * x - b * q * y;
    assert q * b * y == b * q * y;
  }

  lemma {:induction false} Bezout(a: nat, b: nat) returns (x: int, y: int)
    ensures a * x + b * y == Gcd(a, b)
    decreases b
  {
    hide Mod;
    hide Div;
    if b == 0 {
      x, y := 1, 0;
    } else {
      var x', y' := Bezout(b, Mod(a, b));
      DivMod(a, b);
      Combine(a, b, Div(a, b), Mod(a, b), x', y');
      x, y := y', x' - Div(a, b) * y';
    }
  }

  lemma Factor(p: nat, q: nat, r: nat, k: nat, d: nat)
    requires p == k * d && q == r * d
    ensures forall m: nat :: m * p + q == (m * k + r) * d
  {
    forall m: nat
      ensures m * p + q == (m * k + r) * d
    {
      assert m * (k * d) == (m * k) * d;
      assert (m * k + r) * d == (m * k) * d + r * d;
    }
  }

  lemma {:induction false} GcdDivides(a: nat, b: nat) returns (p: nat, q: nat)
    ensures a == p * Gcd(a, b) && b == q * Gcd(a, b) && (a > 0 || b > 0 ==> Gcd(a, b) > 0)
    decreases b
  {
    hide Mod;
    hide Div;
    if b == 0 {
      p, q := 1, 0;
    } else {
      var p', q' := GcdDivides(b, Mod(a, b));
      DivMod(a, b);
      Factor(b, Mod(a, b), q', p', Gcd(a, b));
      p, q := Div(a, b) * p' + q', p';
    }
  }

  // ---- picks at a stride ----

  /** The slot of the k-th pick of a profile that sees the numbers n, n + g, n + 2g, ... */
  function Slot(total: nat, n: nat, g: nat, k: nat): (s: nat)
    requires total > 0
    ensures s < total
  {
    Mod(n + k * g, total)
  }

  /** How many of its first len picks fall to entry i. */
  function StrideShare(weights: seq<int>, i: nat, n: nat, g: nat, len: nat): nat
    requires Total(weights) > 0
  {
    if len == 0 then 0
    else StrideShare(weights, i, n, g, len - 1)
         + if Owns(weights, i, Slot(Total(weights), n, g, len - 1)) then 1 else 0
  }

  /** At stride one this is the share of a profile that has the counter to itself. */
  lemma {:induction false} StrideOne(weights: seq<int>, i: nat, n: nat, len: nat)
    requires Total(weights) > 0
    ensures StrideShare(weights, i, n, 1, len) == Share(weights, i, n, len)
  {
    hide Mod;
    hide Owns;
    hide Total;
    if len > 0 {
      StrideOne(weights, i, n, len - 1);
      assert n + (len - 1) * 1 == n + len - 1;
    }
  }

  // ---- the slots of one residue class ----

  /** The slots from lo on, len many of them, that leave the remainder r modulo d. */
  function Class(lo: nat, len: nat, r: nat, d: nat): (c: set<nat>)
    requires d > 0
    ensures forall s :: s in c <==> lo <= s < lo + len && Mod(s, d) == r
  {
    set s: nat | lo <= s < lo + len && Mod(s, d) == r
  }

  lemma {:induction false} ClassOfFew(lo: nat, len: nat, r: nat, d: nat)
    requires d > 0 && r < d && len <= d
    ensures |Class(lo, len, r, d)| <= 1
    ensures len == d ==> |Class(lo, len, r, d)| == 1
  {
    hide Mod;
    hide Div;
    var c := Class(lo, len, r, d);
    forall s, t | s in c && t in c
      ensures s == t
    {
      if s < t {
        ModSeparates(s, t - s, d);
      } else if t < s {
        ModSeparates(t, s - t, d);
      }
    }
    AtMostOne(c);
    if len == d {
      DivMod(lo, d);
      var s := Div(lo, d) * d + r;
      var up := if s >= lo then s else s + d;
      ModIsUnique(s, d, Div(lo, d), r);
      ModOfSum(s, d);
      assert up in c;
    }
  }

  lemma AtMostOne(c: set<nat>)
    requires forall s, t :: s in c && t in c ==> s == t
    ensures |c| <= 1
  {
    if s :| s in c {
      assert c == {s};
    }
  }

  /** Whole rounds of d slots hold one slot of the class each. */
  lemma {:induction false} ClassOfRounds(lo: nat, rounds: nat, r: nat, d: nat)
    requires d > 0 && r < d
    ensures |Class(lo, rounds * d, r, d)| == rounds
  {
    hide Mod;
    if rounds == 0 {
      assert Class(lo, 0, r, d) == {};
    } else {
      ClassOfRounds(lo, rounds - 1, r, d);
      var front := (rounds - 1) * d;
      NextMultiple(rounds - 1, d);
      ClassOfFew(lo + front, d, r, d);
      assert Class(lo, rounds * d, r, d) == Class(lo, front, r, d) + Class(lo + front, d, r, d);
    }
  }

  // ---- one period of picks visits its class once ----

  /** The shape of a stride: total and g over their greatest common divisor d. */
  predicate Shape(total: nat, g: nat, period: nat, step: nat, d: nat) {
    total > 0 && d == Gcd(g, total) && d > 0 && total == period * d && g == step * d && period > 0
  }

  lemma ShapeOf(total: nat, g: nat) returns (period: nat, step: nat, d: nat)
    requires total > 0
    ensures Shape(total, g, period, step, d)
  {
    d := Gcd(g, total);
    step, period := GcdDivides(g, total);
  }

  /** Numbers whose multiples of g agree modulo total are a multiple of the period apart. */
  lemma Separated(total: nat, g: nat, period: nat, step: nat, d: nat, m: nat, q: int)
    requires Shape(total, g, period, step, d) && m * g == q * total
    ensures exists z: int :: m == z * period
  {
    hide Gcd;
    var x, y := Bezout(g, total);
    var z := q * x + m * y;
    Times(m, g, total, x, y);
    assert m * d == (q * total) * x + (m * total) * y;
    Collect(q, m, total, x, y);
    Regrouped(z, period, d);
    Cancel(m, z * period, d);
  }

  lemma Times(m: int, g: int, total: int, x: int, y: int)
    ensures m * (g * x + total * y) == (m * g) * x + (m * total) * y
  {
  }

  lemma Collect(q: int, m: int, total: int, x: int, y: int)
    ensures (q * total) * x + (m * total) * y == (q * x + m * y) * total
  {
  }

  lemma Regrouped(z: int, period: int, d: int)
    ensures z * (period * d) == (z * period) * d
  {
  }

  lemma Cancel(a: int, b: int, d: nat)
    requires d > 0 && a * d == b * d
    ensures a == b
  {
    assert (a - b) * d == 0;
    Scaled(a - b, d);
  }

  lemma SlotsDiffer(total: nat, g: nat, period: nat, step: nat, d: nat, n: nat, j: nat, k: nat)
    requires Shape(total, g, period, step, d) && j < k < period
    ensures Slot(total, n, g, j) != Slot(total, n, g, k)
  {
    hide Mod;
    hide Div;
    hide Gcd;
    if Slot(total, n, g, j) == Slot(total, n, g, k) {
      DivMod(n + j * g, total);
      DivMod(n + k * g, total);
      var q := Div(n + k * g, total) - Div(n + j * g, total);
      Difference(j, k, g);
      Difference(Div(n + j * g, total), Div(n + k * g, total), total);
      Separated(total, g, period, step, d, k - j, q);
      var z: int :| k - j == z * period;
      Scaled(z, period);
      assert false;
    }
  }

  lemma Difference(a: int, b: int, m: int)
    ensures (b - a) * m == b * m - a * m
  {
  }

  /** All picks stay in the class of the first. */
  lemma SlotInClass(total: nat, g: nat, period: nat, step: nat, d: nat, n: nat, k: nat)
    requires Shape(total, g, period, step, d)
    ensures Mod(Slot(total, n, g, k), d) == Mod(n, d)
  {
    hide Mod;
    hide Div;
    hide Gcd;
    ModOfMultiple(period, d);
    ModOfMod(n + k * g, total, d);
    DivMod(n, d);
    assert k * (step * d) == (k * step) * d;
    assert (Div(n, d) + k * step) * d == Div(n, d) * d + (k * step) * d;
    ModIsUnique(n + k * g, d, Div(n, d) + k * step, Mod(n, d));
  }

  function Visited(total: nat, n: nat, g: nat, len: nat): set<nat>
    requires total > 0
  {
    set k: nat | k < len :: Slot(total, n, g, k)
  }

  lemma VisitedGrows(total: nat, n: nat, g: nat, len: nat)
    requires total > 0 && len > 0
    ensures Visited(total, n, g, len) == Visited(total, n, g, len - 1) + {Slot(total, n, g, len - 1)}
  {
    hide Slot;
  }

  /** Within a period every pick takes a slot not visited before. */
  lemma FreshSlot(total: nat, g: nat, period: nat, step: nat, d: nat, n: nat, len: nat)
    requires total > 0 && Shape(total, g, period, step, d) && 0 < len <= period
    ensures Slot(total, n, g, len - 1) !in Visited(total, n, g, len - 1)
  {
    hide Slot;
    hide Shape;
    forall k | 0 <= k < len - 1
      ensures Slot(total, n, g, k) != Slot(total, n, g, len - 1)
    {
      SlotsDiffer(total, g, period, step, d, n, k, len - 1);
    }
  }

  lemma {:induction false} VisitedOnce(total: nat, g: nat, period: nat, step: nat, d: nat, n: nat, len: nat)
    requires total > 0 && Shape(total, g, period, step, d) && len <= period
    ensures |Visited(total, n, g, len)| == len
    ensures Visited(total, n, g, len) <= Class(0, total, Mod(n, d), d)
  {
    hide Mod;
    hide Slot;
    hide Shape;
    if len == 0 {
      assert Visited(total, n, g, 0) == {};
    } else {
      VisitedOnce(total, g, period, step, d, n, len - 1);
      var s := Slot(total, n, g, len - 1);
      SlotInClass(total, g, period, step, d, n, len - 1);
      VisitedGrows(total, n, g, len);
      FreshSlot(total, g, period, step, d, n, len);
    }
  }

  lemma SameSize(a: set<nat>, b: set<nat>)
    requires a <= b && |a| == |b|
    ensures a == b
  {
    assert b == a + (b - a);
  }

  /** One period of picks visits exactly the slots of its class. */
  lemma PeriodVisitsClass(total: nat, g: nat, period: nat, step: nat, d: nat, n: nat)
    requires Shape(total, g, period, step, d)
    ensures Visited(total, n, g, period) == Class(0, total, Mod(n, d), d)
  {
    hide Mod;
    hide Visited;
    hide Class;
    hide Gcd;
    VisitedOnce(total, g, period, step, d, n, period);
    ClassOfRounds(0, period, Mod(n, d), d);
    SameSize(Visited(total, n, g, period), Class(0, total, Mod(n, d), d));
  }

  // ---- shares ----

  /** The slots of entry i. */
  function SlotsOf(weights: seq<int>, i: nat): (c: set<nat>)
    requires i < |weights|
    ensures forall s :: s in c <==> Owns(weights, i, s)
  {
    set s: nat | s < Prefix(weights, i + 1) && Owns(weights, i, s)
  }

  lemma NoneVisited(total: nat, n: nat, g: nat, mine: set<nat>)
    requires total > 0
    ensures Visited(total, n, g, 0) * mine == {}
  {
    hide Slot;
  }

  lemma CountOneMore(before: set<nat>, s: nat, mine: set<nat>)
    requires s !in before
    ensures |(before + {s}) * mine| == |before * mine| + if s in mine then 1 else 0
  {
    if s in mine {
      assert (before + {s}) * mine == before * mine + {s};
    } else {
      assert (before + {s}) * mine == before * mine;
    }
  }

  lemma {:induction false} ShareCounts(weights: seq<int>, i: nat, n: nat, g: nat,
                                       period: nat, step: nat, d: nat, len: nat)
    requires i < |weights| && Total(weights) > 0 && Shape(Total(weights), g, period, step, d) && len <= period
    ensures StrideShare(weights, i, n, g, len) == |Visited(Total(weights), n, g, len) * SlotsOf(weights, i)|
  {
    hide Slot;
    hide Owns;
    hide Visited;
    hide SlotsOf;
    hide Shape;
    hide Total;
    var total, mine := Total(weights), SlotsOf(weights, i);
    if len == 0 {
      NoneVisited(total, n, g, mine);
    } else {
      ShareCounts(weights, i, n, g, period, step, d, len - 1);
      var s, before := Slot(total, n, g, len - 1), Visited(total, n, g, len - 1);
      FreshSlot(total, g, period, step, d, n, len);
      VisitedGrows(total, n, g, len);
      CountOneMore(before, s, mine);
    }
  }

  /** The share of one period: the slots of entry i in the class of n. */
  lemma ShareOfPeriod(weights: seq<int>, i: nat, n: nat, g: nat, period: nat, step: nat, d: nat)
    requires i < |weights| && Shape(Total(weights), g, period, step, d)
    ensures StrideShare(weights, i, n, g, period)
         == |Class(Prefix(weights, i), Positive(weights[i]), Mod(n, d), d)|
  {
    hide Mod;
    hide Visited;
    hide StrideShare;
    hide Gcd;
    var total := Total(weights);
    ShareCounts(weights, i, n, g, period, step, d, period);
    PeriodVisitsClass(total, g, period, step, d, n);
    PrefixGrows(weights, i + 1, |weights|);
    assert Class(0, total, Mod(n, d), d) * SlotsOf(weights, i)
        == Class(Prefix(weights, i), Positive(weights[i]), Mod(n, d), d);
  }

  lemma SlotRepeats(total: nat, g: nat, period: nat, step: nat, d: nat, n: nat, k: nat)
    requires Shape(total, g, period, step, d)
    ensures Slot(total, n, g, period + k) == Slot(total, n, g, k)
  {
    hide Mod;
    hide Div;
    hide Gcd;
    DivMod(n + k * g, total);
    assert (period + k) * g == period * g + k * g;
    assert period * (step * d) == step * (period * d);
    var q := Div(n + k * g, total);
    assert (step + q) * total == step * total + q * total;
    ModIsUnique(n + (period + k) * g, total, step + q, Mod(n + k * g, total));
  }

  lemma {:induction false} ShareAfterPeriod(weights: seq<int>, i: nat, n: nat, g: nat,
                                            period: nat, step: nat, d: nat, len: nat)
    requires Total(weights) > 0 && Shape(Total(weights), g, period, step, d)
    ensures StrideShare(weights, i, n, g, period + len)
         == StrideShare(weights, i, n, g, period) + StrideShare(weights, i, n, g, len)
  {
    hide Slot;
    hide Owns;
    hide Shape;
    if len > 0 {
      ShareAfterPeriod(weights, i, n, g, period, step, d, len - 1);
      SlotRepeats(Total(weights), g, period, step, d, n, len - 1);
      assert period + len - 1 == period + (len - 1);
    }
  }

  lemma {:induction false} ShareOfPeriods(weights: seq<int>, i: nat, n: nat, g: nat,
                                          period: nat, step: nat, d: nat, times: nat)
    requires Total(weights) > 0 && Shape(Total(weights), g, period, step, d)
    ensures StrideShare(weights, i, n, g, times * period) == times * StrideShare(weights, i, n, g, period)
  {
    hide Slot;
    hide Owns;
    hide Shape;
    if times > 0 {
      ShareOfPeriods(weights, i, n, g, period, step, d, times - 1);
      ShareAfterPeriod(weights, i, n, g, period, step, d, (times - 1) * period);
      NextMultiple(times - 1, period);
      NextMultiple(times - 1, StrideShare(weights, i, n, g, period));
    }
  }

  /**
   * In as many picks as the weights add up to, entry i of a profile that sees every g-th counter
   * value is picked exactly weight times if and only if the greatest common divisor of g and that
   * sum divides the weight - from whatever number the picks start.
   */
  lemma StrideIsFairExactly(weights: seq<int>, i: nat, n: nat, g: nat)
    requires i < |weights| && Total(weights) > 0
    ensures Gcd(g, Total(weights)) > 0
    ensures StrideShare(weights, i, n, g, Total(weights)) == Positive(weights[i])
       <==> Mod(Positive(weights[i]), Gcd(g, Total(weights))) == 0
  {
    hide Mod;
    hide Div;
    hide StrideShare;
    hide Class;
    hide Gcd;
    hide Prefix;
    var w := Positive(weights[i]);
    var period, step, d := ShapeOf(Total(weights), g);
    var share := StrideShare(weights, i, n, g, period);
    ShareOfPeriods(weights, i, n, g, period, step, d, d);
    Swap(d, period);
    if Mod(w, d) == 0 {
      ShareOfPeriod(weights, i, n, g, period, step, d);
      DivMod(w, d);
      ClassOfRounds(Prefix(weights, i), Div(w, d), Mod(n, d), d);
      Swap(d, share);
    }
    if w == d * share {
      Swap(d, share);
      ModOfMultiple(share, d);
    }
  }

  lemma Swap(a: nat, b: nat)
    ensures a * b == b * a
  {
  }

  /** So a stride without a common divisor is fair to every entry. */
  lemma CoprimeIsFair(weights: seq<int>, i: nat, n: nat, g: nat)
    requires i < |weights| && Total(weights) > 0 && Gcd(g, Total(weights)) == 1
    ensures StrideShare(weights, i, n, g, Total(weights)) == Positive(weights[i])
  {
    hide Mod;
    hide StrideShare;
    hide Gcd;
    StrideIsFairExactly(weights, i, n, g);
    ModOfMultiple(Positive(weights[i]), 1);
  }

  /** And an entry of less weight than the divisor starves altogether from some number on. */
  lemma SmallWeightStarves(weights: seq<int>, i: nat, g: nat, k: nat)
    requires i < |weights| && Total(weights) > 0 && Positive(weights[i]) < Gcd(g, Total(weights))
    ensures !Owns(weights, i, Slot(Total(weights), Prefix(weights, i + 1), g, k))
  {
    hide Mod;
    hide Gcd;
    hide Slot;
    var n, total := Prefix(weights, i + 1), Total(weights);
    var period, step, d := ShapeOf(total, g);
    var s := Slot(total, n, g, k);
    SlotInClass(total, g, period, step, d, n, k);
    if Owns(weights, i, s) {
      ModSeparates(s, n - s, d);
    }
  }

  /** Two profiles that take turns, each with two WANs of weight 1: either uses one WAN only. */
  lemma TurnsStarve(n: nat, k: nat)
    ensures Total([1, 1]) == 2 && Gcd(2, 2) == 2
    ensures Owns([1, 1], Mod(n, 2), Slot(2, n, 2, k))
  {
    hide Slot;
    assert Prefix([1, 1], 1) == 1;
    assert Prefix([1, 1], 2) == 2;
    assert Gcd(2, 0) == 2;
    SlotInClass(2, 2, 1, 1, 2, n, k);
    ModOfSmall(Slot(2, n, 2, k), 2);
  }
}
