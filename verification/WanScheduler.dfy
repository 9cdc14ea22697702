/**
 * Weighted round robin over the WANs of a profile (wrr_slot_to_wan and
 * flow_table_pick_wan_per_packet in src/core/flow_table.c, select_wan_idx_for_packet in
 * src/core/forwarder.c).
 */
module WanScheduler {
  import opened Bytes
  import opened Policy
  import opened Remainders

  // ---- slots ----

  function Positive(w: int): nat {
    if w > 0 then w else 0
  }

  /** Sum of the positive weights of the first n entries. */
  function Prefix(weights: seq<int>, n: nat): nat
    requires n <= |weights|
  {
    if n == 0 then 0 else Prefix(weights, n - 1) + Positive(weights[n - 1])
  }

  function Total(weights: seq<int>): nat {
    Prefix(weights, |weights|)
  }

  lemma {:induction false} PrefixGrows(weights: seq<int>, i: nat, j: nat)
    requires i <= j <= |weights|
    ensures Prefix(weights, i) <= Prefix(weights, j)
    decreases j
  {
    if i < j {
      PrefixGrows(weights, i, j - 1);
    }
  }

  /** Slot s belongs to entry i: the slots are dealt out in entry order, weight many to each. */
  predicate Owns(weights: seq<int>, i: nat, s: nat) {
    i < |weights| && Prefix(weights, i) <= s < Prefix(weights, i + 1)
  }

  lemma OwnerIsUnique(weights: seq<int>, i: nat, j: nat, s: nat)
    requires Owns(weights, i, s) && Owns(weights, j, s)
    ensures i == j && weights[i] > 0
  {
    if i < j {
      PrefixGrows(weights, i + 1, j);
    } else if j < i {
      PrefixGrows(weights, j + 1, i);
    }
  }

  /** Entries own their slots in order: with the number of slots of each, this fixes them all. */
  lemma OwnersAscend(weights: seq<int>, i: nat, j: nat, s: nat, t: nat)
    requires Owns(weights, i, s) && Owns(weights, j, t) && s <= t
    ensures i <= j
  {
    if j < i {
      PrefixGrows(weights, j + 1, i);
    }
  }

  /** Every slot below the sum of the positive weights has an owner, and no other slot. */
  lemma {:induction false} SlotsAreOwned(weights: seq<int>, n: nat, s: nat)
    requires n <= |weights|
    ensures s < Prefix(weights, n) <==> exists i: nat :: i < n && Owns(weights, i, s)
  {
    if n > 0 {
      SlotsAreOwned(weights, n - 1, s);
      if Prefix(weights, n - 1) <= s < Prefix(weights, n) {
        assert Owns(weights, n - 1, s);
      }
      if i: nat :| i < n && Owns(weights, i, s) {
        PrefixGrows(weights, i + 1, n);
      }
    }
  }

  /** weights_sum_positive. */
  method WeightsSumPositive(weights: seq<int>) returns (s: nat)
    ensures s == Total(weights)
  {
    s := 0;
    var i := 0;
    while i < |weights|
      invariant 0 <= i <= |weights| && s == Prefix(weights, i)
    {
      if weights[i] > 0 {
        s := s + weights[i];
      }
      i := i + 1;
    }
  }

  /** C's remainder: it has the sign of the dividend. */
  function Rem(n: int, m: nat): (r: int)
    requires m > 0
    ensures 0 < m + r && r < m
  {
    if n >= 0 then Mod(n, m) else -(Mod(-n, m) as int)
  }

  /** A slot, also a negative one, brought into the range of the slots. */
  function Normal(slot: int, sumw: nat): (s: nat)
    requires sumw > 0
    ensures s < sumw
  {
    Mod(Rem(slot, sumw) + sumw, sumw)
  }

  /** It differs from the slot by whole rounds. */
  lemma NormalIsCongruent(slot: int, sumw: nat) returns (q: int)
    requires sumw > 0
    ensures slot == q * sumw + Normal(slot, sumw)
    ensures slot >= 0 ==> Normal(slot, sumw) == Mod(slot, sumw)
  {
    hide Mod;
    hide Div;
    if slot >= 0 {
      ModOfSum(Mod(slot, sumw), sumw);
      ModOfSmall(Mod(slot, sumw), sumw);
      DivMod(slot, sumw);
      q := Div(slot, sumw);
    } else {
      var r := Mod(-slot, sumw);
      DivMod(-slot, sumw);
      q := -(Div(-slot, sumw) as int);
      if r == 0 {
        ModOfSum(0, sumw);
        ModOfSmall(0, sumw);
      } else {
        ModOfSmall(sumw - r, sumw);
        q := q - 1;
      }
    }
  }

  /**
   * wrr_slot_to_wan: the position of the entry that owns the slot, the first one when no weight is
   * positive. Its loop never falls through.
   */
  method SlotToEntry(slot: int, weights: seq<int>, sumw: nat) returns (i: nat)
    requires weights != [] && sumw == Total(weights)
    ensures i < |weights|
    ensures if sumw == 0 then i == 0 else Owns(weights, i, Normal(slot, sumw)) && weights[i] > 0
  {
    hide Mod;
    hide Normal;
    if sumw <= 0 {
      return 0;
    }
    var s := Normal(slot, sumw);
    var acc := 0;
    i := 0;
    while i < |weights|
      invariant 0 <= i <= |weights| && acc == Prefix(weights, i) <= s
    {
      if weights[i] > 0 {
        acc := acc + weights[i];
        if s < acc {
          return;
        }
      }
      i := i + 1;
    }
    assert false;
  }

  /** The entry that pick number n takes; no usable weights mean plain round robin. */
  ghost predicate Picks(weights: Option<seq<int>>, count: nat, n: nat, i: nat) {
    if weights.Some? && Total(weights.value) > 0 then Owns(weights.value, i, Mod(n, Total(weights.value)))
    else count > 0 && i == Mod(n, count)
  }

  /**
   * flow_table_pick_wan_per_packet; n is the packet counter all profiles share. Without a choice
   * the counter stays where it is.
   */
  method PickPerPacket(allowed: seq<int>, weights: Option<seq<int>>, n: u64) returns (wan: int, next: u64)
    requires weights.Some? ==> |weights.value| == |allowed|
    ensures |allowed| == 0 ==> wan == 0
    ensures |allowed| == 1 ==> wan == allowed[0]
    ensures |allowed| > 1 ==> exists i :: 0 <= i < |allowed| && Picks(weights, |allowed|, n, i) && wan == allowed[i]
    ensures next == if |allowed| > 1 then (n + 1) % 0x1_0000_0000_0000_0000 else n
  {
    hide Mod;
    hide Prefix;
    hide Normal;
    next := n;
    if |allowed| <= 0 {
      return 0, n;
    }
    if |allowed| == 1 {
      return allowed[0], n;
    }
    next := (n + 1) % 0x1_0000_0000_0000_0000;
    if weights.Some? {
      var sumw := WeightsSumPositive(weights.value);
      if sumw > 0 {
        ghost var q := NormalIsCongruent(Mod(n, sumw), sumw);
        ModOfSmall(Mod(n, sumw), sumw);
        var i := SlotToEntry(Mod(n, sumw), weights.value, sumw);
        assert Picks(weights, |allowed|, n, i);
        wan := allowed[i];
        return;
      }
    }
    assert Picks(weights, |allowed|, n, Mod(n, |allowed|));
    wan := allowed[Mod(n, |allowed|)];
  }

  // ---- fairness ----

  /** How many of the len picks from number n on fall to entry i. */
  function Share(weights: seq<int>, i: nat, n: nat, len: nat): nat
    requires Total(weights) > 0
  {
    if len == 0 then 0
    else Share(weights, i, n, len - 1) + if Owns(weights, i, Mod(n + len - 1, Total(weights))) then 1 else 0
  }

  lemma ShareFromBack(weights: seq<int>, i: nat, n: nat, len: nat)
    requires Total(weights) > 0 && len > 0
    ensures Share(weights, i, n, len)
         == Share(weights, i, n, len - 1) + if Owns(weights, i, Mod(n + len - 1, Total(weights))) then 1 else 0
  {
    hide Owns;
    hide Total;
    hide Mod;
  }

  lemma {:induction false} ShareFromFront(weights: seq<int>, i: nat, n: nat, len: nat)
    requires Total(weights) > 0 && len > 0
    ensures Share(weights, i, n, len)
         == Share(weights, i, n + 1, len - 1) + if Owns(weights, i, Mod(n, Total(weights))) then 1 else 0
  {
    hide Owns;
    hide Total;
    hide Mod;
    if len > 1 {
      ShareFromFront(weights, i, n, len - 1);
      assert n + len - 1 == n + 1 + (len - 1) - 1;
    }
  }

  /** The first len slots of a round hold those of entry i's slots that lie below len. */
  lemma {:induction false} ShareOfRound(weights: seq<int>, i: nat, len: nat)
    requires i < |weights| && len <= Total(weights) && Total(weights) > 0
    ensures Share(weights, i, 0, len)
         == if len <= Prefix(weights, i) then 0
            else if len <= Prefix(weights, i + 1) then len - Prefix(weights, i)
            else Positive(weights[i])
  {
    hide Mod;
    if len > 0 {
      ShareOfRound(weights, i, len - 1);
      ModOfSmall(len - 1, Total(weights));
    }
  }

  lemma {:induction false} ShareSlides(weights: seq<int>, i: nat, n: nat)
    requires i < |weights| && Total(weights) > 0
    ensures Share(weights, i, n, Total(weights)) == Share(weights, i, 0, Total(weights))
  {
    hide Owns;
    hide Share;
    hide Prefix;
    hide Mod;
    if n > 0 {
      var sumw := Total(weights);
      ShareSlides(weights, i, n - 1);
      ShareFromFront(weights, i, n - 1, sumw);
      ShareFromBack(weights, i, n, sumw);
      ModOfSum(n - 1, sumw);
    }
  }

  /** In any window of Total(weights) consecutive picks, each entry is picked exactly weight times. */
  lemma WindowIsFair(weights: seq<int>, i: nat, n: nat)
    requires i < |weights| && Total(weights) > 0
    ensures Share(weights, i, n, Total(weights)) == Positive(weights[i])
  {
    hide Mod;
    hide Owns;
    hide Share;
    ShareSlides(weights, i, n);
    ShareOfRound(weights, i, Total(weights));
    PrefixGrows(weights, i + 1, |weights|);
  }

  function Ones(count: nat): seq<int> {
    seq(count, _ => 1)
  }

  /** Round robin is the case of equal weights, so it is fair in the same sense. */
  lemma {:induction false} RoundRobinIsUnitWeights(count: nat, n: nat, i: nat)
    requires i < count
    ensures Total(Ones(count)) == count
    ensures Picks(None, count, n, i) <==> Picks(Some(Ones(count)), count, n, i)
  {
    hide Mod;
    PrefixOfOnes(count, count);
    PrefixOfOnes(count, i);
    PrefixOfOnes(count, i + 1);
  }

  lemma {:induction false} PrefixOfOnes(count: nat, n: nat)
    requires n <= count
    ensures Prefix(Ones(count), n) == n
  {
    if n > 0 {
      PrefixOfOnes(count, n - 1);
    }
  }

  // ---- a profile's WANs ----

  predicate AnyWeight(ws: seq<(int, int)>) {
    exists k :: 0 <= k < |ws| && ws[k].1 > 0
  }

  /** The entries select_wan_idx_for_packet lets compete. */
  function Competing(ws: seq<(int, int)>, wanCount: int, anyWeight: bool): (r: seq<(int, int)>)
    ensures |r| <= |ws|
    ensures forall k :: 0 <= k < |r| ==> r[k] in ws && 0 <= r[k].0 < wanCount && (anyWeight ==> r[k].1 > 0)
  {
    if ws == [] then []
    else
      var last := ws[|ws| - 1];
      Competing(ws[..|ws| - 1], wanCount, anyWeight)
        + if 0 <= last.0 < wanCount && (anyWeight ==> last.1 > 0) then [last] else []
  }

  function Weights(ws: seq<(int, int)>): (r: seq<int>)
    ensures |r| == |ws| && forall k :: 0 <= k < |ws| ==> r[k] == ws[k].1
  {
    seq(|ws|, k requires 0 <= k < |ws| => ws[k].1)
  }

  method HasWeight(ws: seq<(int, int)>) returns (anyWeight: bool)
    ensures anyWeight <==> AnyWeight(ws)
  {
    anyWeight := false;
    var i := 0;
    while i < |ws|
      invariant 0 <= i <= |ws|
      invariant anyWeight <==> exists k :: 0 <= k < i && ws[k].1 > 0
    {
      if ws[i].1 > 0 {
        anyWeight := true;
      }
      i := i + 1;
    }
  }

  method Compete(ws: seq<(int, int)>, wanCount: int, anyWeight: bool) returns (allowed: seq<(int, int)>)
    requires |ws| <= MaxProfileInterfaces
    ensures allowed == Competing(ws, wanCount, anyWeight)
  {
    allowed := [];
    var i := 0;
    while i < |ws| && |allowed| < MaxInterfaces
      invariant 0 <= i <= |ws| && |allowed| <= i
      invariant allowed == Competing(ws[..i], wanCount, anyWeight)
    {
      assert ws[..i + 1][..i] == ws[..i];
      if 0 <= ws[i].0 < wanCount && !(anyWeight && ws[i].1 <= 0) {
        allowed := allowed + [ws[i]];
      }
      i := i + 1;
    }
    assert ws[..i] == ws;
  }

  function Indices(ws: seq<(int, int)>): (r: seq<int>)
    ensures |r| == |ws| && forall k :: 0 <= k < |ws| ==> r[k] == ws[k].0
  {
    seq(|ws|, k requires 0 <= k < |ws| => ws[k].0)
  }

  /**
   * What the WANs ws of a profile give for packet number n: one of those that compete, by weight
   * where there are weights, or None for falling back to the flow table.
   */
  ghost predicate Chosen(ws: seq<(int, int)>, wanCount: int, n: u64, wan: Option<int>, next: u64) {
    var c := Competing(ws, wanCount, AnyWeight(ws));
    var weights := if AnyWeight(ws) then Some(Weights(c)) else None;
    if |ws| > 1 && |c| > 1 then
      && next == (n + 1) % 0x1_0000_0000_0000_0000
      && exists i :: 0 <= i < |c| && Picks(weights, |c|, n, i) && wan == Some(c[i].0)
    else
      && next == n
      && wan == if |ws| > 1 && |c| == 1 then Some(c[0].0)
                else if |ws| == 1 && 0 <= ws[0].0 < wanCount then Some(ws[0].0)
                else None
  }

  /**
   * The profile part of select_wan_idx_for_packet. With a positive weight somewhere, a WAN without
   * one is never chosen.
   */
  method SelectWan(ws: seq<(int, int)>, wanCount: int, n: u64) returns (wan: Option<int>, next: u64)
    requires |ws| <= MaxProfileInterfaces
    ensures Chosen(ws, wanCount, n, wan, next)
  {
    hide Mod;
    hide Picks;
    hide Weights;
    hide Competing;
    hide AnyWeight;
    next := n;
    if |ws| > 1 {
      var anyWeight := HasWeight(ws);
      var allowed := Compete(ws, wanCount, anyWeight);
      if |allowed| == 1 {
        return Some(allowed[0].0), n;
      }
      if |allowed| > 1 {
        var w;
        w, next := PickPerPacket(Indices(allowed), if anyWeight then Some(Weights(allowed)) else None, n);
        return Some(w), next;
      }
    } else if |ws| == 1 {
      if 0 <= ws[0].0 < wanCount {
        return Some(ws[0].0), n;
      }
    }
    wan := None;
  }

  /** What the profile that serves the local interface gives for packet number n. */
  ghost predicate ProfileGives(cfg: Config, local: int, n: u64, wan: Option<int>, next: u64) {
    match ProfileOfLocal(cfg, local)
    case None => wan == None && next == n
    case Some(k) => Chosen(cfg.profiles[k].wans, |cfg.wans|, n, wan, next)
  }

  /** select_wan_idx_for_packet up to the flow table. */
  method SelectByProfile(cfg: Config, local: int, n: u64) returns (wan: Option<int>, next: u64)
    requires forall k :: 0 <= k < |cfg.profiles| ==> |cfg.profiles[k].wans| <= MaxProfileInterfaces
    ensures ProfileGives(cfg, local, n, wan, next)
  {
    hide Chosen;
    wan, next := None, n;
    if |cfg.profiles| > 0 && 0 <= local < |cfg.locals| {
      var k := SelectProfileForLocal(cfg, local);
      if k.Some? {
        wan, next := SelectWan(cfg.profiles[k.value].wans, |cfg.wans|, n);
      }
    }
  }

  /** Entry k may compete: its WAN exists, and where there are weights it has one. */
  predicate MayCompete(ws: seq<(int, int)>, wanCount: int, k: nat) {
    && k < |ws| && 0 <= ws[k].0 < wanCount
    && (ws[k].1 > 0 || forall j :: 0 <= j < |ws| ==> ws[j].1 <= 0)
  }

  /** at lists exactly the entries that may compete, in order. */
  predicate Lists(at: seq<nat>, ws: seq<(int, int)>, wanCount: int, anyWeight: bool) {
    && (forall i :: 0 <= i < |at| ==> at[i] < |ws|)
    && (forall i, j :: 0 <= i < j < |at| ==> at[i] < at[j])
    && forall k: nat :: k < |ws| ==> (k in at <==> 0 <= ws[k].0 < wanCount && (anyWeight ==> ws[k].1 > 0))
  }

  /** Those that compete are exactly the entries that may, each once and in their order. */
  lemma {:induction false} CompetingListed(ws: seq<(int, int)>, wanCount: int, anyWeight: bool) returns (at: seq<nat>)
    ensures Lists(at, ws, wanCount, anyWeight)
    ensures |at| == |Competing(ws, wanCount, anyWeight)|
    ensures forall i :: 0 <= i < |at| ==> Competing(ws, wanCount, anyWeight)[i] == ws[at[i]]
  {
    hide Lists;
    hide Competing;
    CompetingStep(ws, wanCount, anyWeight);
    NothingListed(wanCount, anyWeight);
    at := [];
    if ws != [] {
      var n := |ws| - 1;
      var before := CompetingListed(ws[..n], wanCount, anyWeight);
      at := if 0 <= ws[n].0 < wanCount && (anyWeight ==> ws[n].1 > 0) then before + [n] else before;
      ListsStep(before, at, ws, wanCount, anyWeight);
      ListsInside(before, ws[..n], wanCount, anyWeight);
    }
  }

  lemma CompetingStep(ws: seq<(int, int)>, wanCount: int, anyWeight: bool)
    ensures ws == [] ==> Competing(ws, wanCount, anyWeight) == []
    ensures ws != [] ==>
              var before, last := Competing(ws[..|ws| - 1], wanCount, anyWeight), ws[|ws| - 1];
              Competing(ws, wanCount, anyWeight)
              == if 0 <= last.0 < wanCount && (anyWeight ==> last.1 > 0) then before + [last] else before
  {
  }

  lemma ListsInside(at: seq<nat>, ws: seq<(int, int)>, wanCount: int, anyWeight: bool)
    requires Lists(at, ws, wanCount, anyWeight)
    ensures forall i :: 0 <= i < |at| ==> at[i] < |ws|
  {
  }

  lemma NothingListed(wanCount: int, anyWeight: bool)
    ensures Lists([], [], wanCount, anyWeight)
  {
  }

  lemma ListsStep(before: seq<nat>, at: seq<nat>, ws: seq<(int, int)>, wanCount: int, anyWeight: bool)
    requires ws != [] && Lists(before, ws[..|ws| - 1], wanCount, anyWeight)
    requires var n := |ws| - 1;
             at == if 0 <= ws[n].0 < wanCount && (anyWeight ==> ws[n].1 > 0) then before + [n] else before
    ensures Lists(at, ws, wanCount, anyWeight)
  {
    var n := |ws| - 1;
    forall k: nat | k < |ws|
      ensures k in at <==> 0 <= ws[k].0 < wanCount && (anyWeight ==> ws[k].1 > 0)
    {
      if k < n {
        assert ws[..n][k] == ws[k];
      } else {
        assert k !in before;
      }
    }
  }

  /**
   * A profile of several WANs gives none exactly when no entry may compete; the counter moves on
   * exactly when two may. A profile of one WAN gives that if it exists, whatever its weight.
   */
  lemma ChosenExactly(ws: seq<(int, int)>, wanCount: int, n: u64, wan: Option<int>, next: u64)
    requires Chosen(ws, wanCount, n, wan, next)
    ensures |ws| > 1 ==> (wan.Some? <==> exists k: nat :: MayCompete(ws, wanCount, k))
    ensures |ws| > 1 && wan.Some? ==> exists k: nat :: MayCompete(ws, wanCount, k) && wan.value == ws[k].0
    ensures |ws| == 1 ==> wan == if 0 <= ws[0].0 < wanCount then Some(ws[0].0) else None
    ensures ws == [] ==> wan == None
    ensures var choice := exists j: nat, k: nat :: j < k && MayCompete(ws, wanCount, j) && MayCompete(ws, wanCount, k);
            next == if |ws| > 1 && choice then (n + 1) % 0x1_0000_0000_0000_0000 else n
  {
    hide Picks;
    hide Competing;
    hide MayCompete;
    hide AnyWeight;
    var at := WhoMayCompete(ws, wanCount);
    if |at| > 0 {
      assert MayCompete(ws, wanCount, at[0]);
    }
    if |at| > 1 {
      assert at[0] < at[1] && MayCompete(ws, wanCount, at[1]);
    }
    if wan.Some? && |ws| > 1 && |at| > 1 {
      var c := Competing(ws, wanCount, AnyWeight(ws));
      var i :| 0 <= i < |c| && wan == Some(c[i].0);
      assert MayCompete(ws, wanCount, at[i]);
    }
  }

  lemma WhoMayCompete(ws: seq<(int, int)>, wanCount: int) returns (at: seq<nat>)
    ensures forall k: nat :: MayCompete(ws, wanCount, k) <==> k in at
    ensures forall i, j :: 0 <= i < j < |at| ==> at[i] < at[j]
    ensures forall i :: 0 <= i < |at| ==> at[i] < |ws|
    ensures var c := Competing(ws, wanCount, AnyWeight(ws));
            |c| == |at| && forall i :: 0 <= i < |at| ==> c[i] == ws[at[i]]
  {
    hide Competing;
    at := CompetingListed(ws, wanCount, AnyWeight(ws));
    forall k: nat
      ensures MayCompete(ws, wanCount, k) <==> k in at
    {
    }
  }

  /** Whatever is chosen is a WAN of the profile that exists; with weights, one of positive weight. */
  lemma ChosenIsUsable(ws: seq<(int, int)>, wanCount: int, n: u64, wan: int, next: u64)
    requires Chosen(ws, wanCount, n, Some(wan), next)
    ensures 0 <= wan < wanCount
    ensures exists k :: 0 <= k < |ws| && ws[k].0 == wan && (|ws| > 1 && AnyWeight(ws) ==> ws[k].1 > 0)
  {
    hide AnyWeight;
    hide Picks;
    var c := Competing(ws, wanCount, AnyWeight(ws));
    if |ws| > 1 {
      var i :| 0 <= i < |c| && wan == c[i].0;
      assert c[i] in ws;
    }
  }
}
