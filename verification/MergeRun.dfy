/** Building one configuration out of many (build_merged_config in src/db/db_runtime.c). */
module MergeRun {
  import opened Bytes
  import opened Policy
  import opened ConfigMerge
  import opened CryptoRuntime

  /** Every profile of every source, in merge order. */
  ghost function Sources(cfgs: seq<Config>): (r: seq<(Config, nat)>)
    ensures |r| == ProfileTotal(cfgs)
  {
    if cfgs == [] then []
    else
      var last := cfgs[|cfgs| - 1];
      Sources(cfgs[..|cfgs| - 1]) + seq(|last.profiles|, i requires 0 <= i < |last.profiles| => (last, i))
  }

  ghost function AllLocals(cfgs: seq<Config>): set<string> {
    if cfgs == [] then {} else AllLocals(cfgs[..|cfgs| - 1]) + NameSet(LocalNames(cfgs[|cfgs| - 1].locals))
  }

  ghost function AllWans(cfgs: seq<Config>): set<string> {
    if cfgs == [] then {} else AllWans(cfgs[..|cfgs| - 1]) + NameSet(WanNames(cfgs[|cfgs| - 1].wans))
  }

  /** All local interfaces of all sources, one after the other; so for the WANs. */
  ghost function LocalList(cfgs: seq<Config>): seq<Local> {
    if cfgs == [] then [] else LocalList(cfgs[..|cfgs| - 1]) + cfgs[|cfgs| - 1].locals
  }

  ghost function WanList(cfgs: seq<Config>): seq<Wan> {
    if cfgs == [] then [] else WanList(cfgs[..|cfgs| - 1]) + cfgs[|cfgs| - 1].wans
  }

  ghost function PolicyTotal(cfgs: seq<Config>): nat {
    if cfgs == [] then 0 else PolicyTotal(cfgs[..|cfgs| - 1]) + |cfgs[|cfgs| - 1].policies|
  }

  ghost function ProfileTotal(cfgs: seq<Config>): nat {
    if cfgs == [] then 0 else ProfileTotal(cfgs[..|cfgs| - 1]) + |cfgs[|cfgs| - 1].profiles|
  }

  /** Everything fits into one configuration. */
  ghost predicate AllFit(cfgs: seq<Config>) {
    |AllLocals(cfgs)| <= 16 && |AllWans(cfgs)| <= 16 && PolicyTotal(cfgs) <= 128 && ProfileTotal(cfgs) <= 32
  }

  lemma {:induction false} FitDown(cfgs: seq<Config>, i: nat)
    requires i <= |cfgs| && AllFit(cfgs)
    ensures AllFit(cfgs[..i])
    decreases |cfgs|
  {
    if i < |cfgs| {
      var rest := cfgs[..|cfgs| - 1];
      SubsetBound(AllLocals(rest), AllLocals(cfgs));
      SubsetBound(AllWans(rest), AllWans(cfgs));
      FitDown(rest, i);
      assert rest[..i] == cfgs[..i];
    } else {
      assert cfgs[..i] == cfgs;
    }
  }

  /** dst holds exactly what cfgs contribute. */
  ghost predicate Holds(dst: Merged, cfgs: seq<Config>)
    reads dst
  {
    && dst.Valid()
    && NameSet(LocalNames(dst.locals)) == AllLocals(cfgs) && NameSet(WanNames(dst.wans)) == AllWans(cfgs)
    && dst.locals == AddedLocals([], LocalList(cfgs)) && dst.wans == AddedWans([], WanList(cfgs))
    && |dst.policies| == PolicyTotal(cfgs) && |dst.profiles| == ProfileTotal(cfgs)
    && SameSources(dst.origins, Sources(cfgs))
  }

  ghost predicate SameSources(origins: seq<(Config, nat, nat)>, sources: seq<(Config, nat)>) {
    |origins| == |sources| && forall k :: 0 <= k < |origins| ==> (origins[k].0, origins[k].1) == sources[k]
  }

  lemma SourcesStep(cfgs: seq<Config>, i: nat, origins: seq<(Config, nat, nat)>, base: nat)
    requires i < |cfgs| && SameSources(origins, Sources(cfgs[..i]))
    ensures SameSources(origins + Copies(cfgs[i], base, |cfgs[i].profiles|), Sources(cfgs[..i + 1]))
  {
    assert cfgs[..i + 1][..i] == cfgs[..i];
  }

  lemma {:induction false} AddedLocalsTwice(base: seq<Local>, a: seq<Local>, b: seq<Local>)
    ensures AddedLocals(base, a + b) == AddedLocals(AddedLocals(base, a), b)
  {
    if b == [] {
      assert a + b == a;
    } else {
      AddedLocalsTwice(base, a, b[..|b| - 1]);
      assert (a + b)[..|a + b| - 1] == a + b[..|b| - 1];
    }
  }

  lemma {:induction false} AddedWansTwice(base: seq<Wan>, a: seq<Wan>, b: seq<Wan>)
    ensures AddedWans(base, a + b) == AddedWans(AddedWans(base, a), b)
  {
    if b == [] {
      assert a + b == a;
    } else {
      AddedWansTwice(base, a, b[..|b| - 1]);
      assert (a + b)[..|a + b| - 1] == a + b[..|b| - 1];
    }
  }

  lemma ListsStep(cfgs: seq<Config>, i: nat)
    requires i < |cfgs|
    ensures AddedLocals([], LocalList(cfgs[..i + 1]))
            == AddedLocals(AddedLocals([], LocalList(cfgs[..i])), cfgs[i].locals)
    ensures AddedWans([], WanList(cfgs[..i + 1])) == AddedWans(AddedWans([], WanList(cfgs[..i])), cfgs[i].wans)
  {
    hide AddedLocals;
    hide AddedWans;
    assert cfgs[..i + 1][..i] == cfgs[..i];
    AddedLocalsTwice([], LocalList(cfgs[..i]), cfgs[i].locals);
    AddedWansTwice([], WanList(cfgs[..i]), cfgs[i].wans);
  }

  lemma TotalsStep(cfgs: seq<Config>, i: nat)
    requires i < |cfgs|
    ensures AllLocals(cfgs[..i + 1]) == AllLocals(cfgs[..i]) + NameSet(LocalNames(cfgs[i].locals))
    ensures AllWans(cfgs[..i + 1]) == AllWans(cfgs[..i]) + NameSet(WanNames(cfgs[i].wans))
    ensures PolicyTotal(cfgs[..i + 1]) == PolicyTotal(cfgs[..i]) + |cfgs[i].policies|
    ensures ProfileTotal(cfgs[..i + 1]) == ProfileTotal(cfgs[..i]) + |cfgs[i].profiles|
  {
    assert cfgs[..i + 1][..i] == cfgs[..i];
  }

  /** The merge loop of build_merged_config. It succeeds exactly when everything fits. */
  method MergeAll(cfgs: seq<Config>) returns (ok: bool, dst: Merged)
    requires forall i :: 0 <= i < |cfgs| ==> FitsArrays(cfgs[i])
    ensures ok <==> AllFit(cfgs)
    ensures dst.Valid() && (ok ==> Holds(dst, cfgs))
  {
    hide FitsArrays;
    hide Copies;
    hide Assigned;
    hide NameSet;
    hide LocalNames;
    hide WanNames;
    hide IdsDistinct;
    hide SameSources;
    hide AddedLocals;
    hide AddedWans;
    dst := new Merged();
    Nothing(dst);
    var i := 0;
    while i < |cfgs|
      invariant 0 <= i <= |cfgs|
      invariant fresh(dst) && Holds(dst, cfgs[..i]) && AllFit(cfgs[..i])
    {
      ghost var origins := dst.origins;
      TotalsStep(cfgs, i);
      ListsStep(cfgs, i);
      SourcesStep(cfgs, i, origins, |dst.policies|);
      ok := dst.MergeOne(cfgs[i]);
      if !ok {
        if AllFit(cfgs) {
          FitDown(cfgs, i + 1);
        }
        return;
      }
      i := i + 1;
    }
    assert cfgs[..i] == cfgs;
    ok := true;
  }

  lemma Nothing(dst: Merged)
    requires dst.Valid() && dst.locals == [] && dst.wans == [] && dst.policies == [] && dst.profiles == []
    ensures Holds(dst, []) && AllFit([])
  {
    assert LocalNames([]) == [] && WanNames([]) == [];
  }

  // ---- which interfaces win ----

  /** The i-th local interface of a list is x, the first of its name. */
  predicate FirstLocal(ls: seq<Local>, i: nat, x: Local) {
    i < |ls| && ls[i] == x && x.ifname !in LocalNames(ls[..i])
  }

  lemma FirstLocalStep(ls: seq<Local>, n: nat, x: Local)
    requires n + 1 == |ls|
    ensures (exists i :: FirstLocal(ls, i, x))
       <==> (exists i :: FirstLocal(ls[..n], i, x)) || (ls[n] == x && x.ifname !in LocalNames(ls[..n]))
  {
    hide LocalNames;
    forall i: nat
      ensures FirstLocal(ls, i, x)
              <==> FirstLocal(ls[..n], i, x) || (i == n && ls[n] == x && x.ifname !in LocalNames(ls[..n]))
    {
      if i < n {
        assert ls[..n][..i] == ls[..i];
      }
    }
    assert FirstLocal(ls, n, x) || !FirstLocal(ls, n, x);
  }

  /** Of several local interfaces of one name the merge keeps the first. */
  lemma {:induction false} FirstLocalWins(ls: seq<Local>, x: Local)
    ensures x in AddedLocals([], ls) <==> exists i :: FirstLocal(ls, i, x)
  {
    hide NameSet;
    hide FirstLocal;
    if ls == [] {
      NoLocal(x);
    } else {
      var n := |ls| - 1;
      FirstLocalWins(ls[..n], x);
      FirstLocalStep(ls, n, x);
      SameLocalNames(ls[..n], ls[n].ifname);
    }
  }

  lemma NoLocal(x: Local)
    ensures forall i :: !FirstLocal([], i, x)
  {
  }

  lemma SameLocalNames(ls: seq<Local>, name: string)
    ensures name in LocalNames(AddedLocals([], ls)) <==> name in LocalNames(ls)
  {
    hide AddedLocals;
    AddedLocalsNames([], ls);
    assert name in NameSet(LocalNames(ls)) <==> name in LocalNames(ls);
  }

  /** The i-th WAN of a list is x, the first of its name. */
  predicate FirstWan(ls: seq<Wan>, i: nat, x: Wan) {
    i < |ls| && ls[i] == x && x.ifname !in WanNames(ls[..i])
  }

  lemma FirstWanStep(ls: seq<Wan>, n: nat, x: Wan)
    requires n + 1 == |ls|
    ensures (exists i :: FirstWan(ls, i, x))
       <==> (exists i :: FirstWan(ls[..n], i, x)) || (ls[n] == x && x.ifname !in WanNames(ls[..n]))
  {
    hide WanNames;
    forall i: nat
      ensures FirstWan(ls, i, x)
              <==> FirstWan(ls[..n], i, x) || (i == n && ls[n] == x && x.ifname !in WanNames(ls[..n]))
    {
      if i < n {
        assert ls[..n][..i] == ls[..i];
      }
    }
    assert FirstWan(ls, n, x) || !FirstWan(ls, n, x);
  }

  /** Of several WANs of one name the merge keeps the first. */
  lemma {:induction false} FirstWanWins(ls: seq<Wan>, x: Wan)
    ensures x in AddedWans([], ls) <==> exists i :: FirstWan(ls, i, x)
  {
    hide NameSet;
    hide FirstWan;
    if ls == [] {
      NoWan(x);
    } else {
      var n := |ls| - 1;
      FirstWanWins(ls[..n], x);
      FirstWanStep(ls, n, x);
      SameWanNames(ls[..n], ls[n].ifname);
    }
  }

  lemma NoWan(x: Wan)
    ensures forall i :: !FirstWan([], i, x)
  {
  }

  lemma SameWanNames(ls: seq<Wan>, name: string)
    ensures name in WanNames(AddedWans([], ls)) <==> name in WanNames(ls)
  {
    hide AddedWans;
    AddedWansNames([], ls);
    assert name in NameSet(WanNames(ls)) <==> name in WanNames(ls);
  }

  /** Every interface that wins its name passes validation. */
  ghost predicate WinnersAccepted(cfgs: seq<Config>) {
    && (forall i, x :: FirstLocal(LocalList(cfgs), i, x) ==> LocalAccepted(x))
    && (forall i, x :: FirstWan(WanList(cfgs), i, x) ==> WanAccepted(x))
  }

  lemma AcceptedExactly(cfgs: seq<Config>, locals: seq<Local>, wans: seq<Wan>)
    requires locals == AddedLocals([], LocalList(cfgs)) && wans == AddedWans([], WanList(cfgs))
    ensures WinnersAccepted(cfgs)
       <==>
         && (forall i :: 0 <= i < |locals| ==> LocalAccepted(locals[i]))
         && (forall i :: 0 <= i < |wans| ==> WanAccepted(wans[i]))
  {
    hide FirstLocal;
    hide FirstWan;
    hide LocalAccepted;
    hide WanAccepted;
    hide AddedLocals;
    hide AddedWans;
    forall x: Local
      ensures x in locals <==> exists i :: FirstLocal(LocalList(cfgs), i, x)
    {
      FirstLocalWins(LocalList(cfgs), x);
    }
    forall x: Wan
      ensures x in wans <==> exists i :: FirstWan(WanList(cfgs), i, x)
    {
      FirstWanWins(WanList(cfgs), x);
    }
    if WinnersAccepted(cfgs) {
      forall i | 0 <= i < |locals|
        ensures LocalAccepted(locals[i])
      {
        assert locals[i] in locals;
      }
      forall i | 0 <= i < |wans|
        ensures WanAccepted(wans[i])
      {
        assert wans[i] in wans;
      }
    } else {
      if i, x :| FirstLocal(LocalList(cfgs), i, x) && !LocalAccepted(x) {
        assert x in locals;
      } else {
        var i, x :| FirstWan(WanList(cfgs), i, x) && !WanAccepted(x);
        assert x in wans;
      }
    }
  }

  /** Profile k of m chooses for f the policy that profile i of src chooses, up to its wire id. */
  ghost predicate ChoosesLike(m: Config, k: int, src: Config, i: int, f: Flow) {
    var picked, origin := SelectPolicy(m, k, f), SelectPolicy(src, i, f);
    && (picked.Some? <==> origin.Some?)
    && (origin.Some? ==> m.policies[picked.value] == src.policies[origin.value].(id := m.policies[picked.value].id))
  }

  /** Profile k of m is profile i of src: same identity, interfaces of the same names, same weights. */
  ghost predicate Mirrors(m: Config, k: nat, src: Config, i: nat)
    requires k < |m.profiles|
  {
    && i < |src.profiles| && m.profiles[k].id == src.profiles[i].id && m.profiles[k].name == src.profiles[i].name
    && m.profiles[k].enabled == src.profiles[i].enabled
    && LocalsOf(m.profiles[k], m.locals) == LocalsOf(src.profiles[i], src.locals)
    && WansOf(m.profiles[k], m.wans) == WansOf(src.profiles[i], src.wans)
  }

  /** A meaning-preserving merge of cfgs. */
  ghost predicate MergeOf(m: Config, cfgs: seq<Config>) {
    && IdsDistinct(m.policies) && |m.policies| == PolicyTotal(cfgs)
    && NameSet(LocalNames(m.locals)) == AllLocals(cfgs) && NameSet(WanNames(m.wans)) == AllWans(cfgs)
    && NoDup(LocalNames(m.locals)) && NoDup(WanNames(m.wans))
    && |m.profiles| == ProfileTotal(cfgs)
    && (forall k :: 0 <= k < |m.profiles| ==> Mirrors(m, k, Sources(cfgs)[k].0, Sources(cfgs)[k].1))
    && forall k, f :: 0 <= k < |m.profiles| ==> ChoosesLike(m, k, Sources(cfgs)[k].0, Sources(cfgs)[k].1, f)
  }

  lemma RepresentsIdentity(dp: Profile, sp: Profile, src: Config, locals: seq<Local>, wans: seq<Wan>, base: nat)
    requires Represents(dp, sp, src, locals, wans, base)
    ensures dp.id == sp.id && dp.name == sp.name && dp.enabled == sp.enabled
  {
  }

  lemma HeldChoices(dst: Merged, cfgs: seq<Config>, m: Config)
    requires Holds(dst, cfgs)
    requires m.locals == dst.locals && m.wans == dst.wans && m.policies == dst.policies && m.profiles == dst.profiles
    ensures MergeOf(m, cfgs)
  {
    hide Represents;
    hide Embedded;
    hide Select;
    hide IdsDistinct;
    hide NameSet;
    hide LocalNames;
    hide WanNames;
    hide NoDup;
    hide LocalsOf;
    hide WansOf;
    forall k | 0 <= k < |m.profiles|
      ensures Mirrors(m, k, Sources(cfgs)[k].0, Sources(cfgs)[k].1)
    {
      assert dst.Faithful(k);
      var (src, i, base) := dst.origins[k];
      assert (src, i) == Sources(cfgs)[k];
      SameInterfaces(m.profiles[k], src.profiles[i], src, m.locals, m.wans, base);
      RepresentsIdentity(m.profiles[k], src.profiles[i], src, m.locals, m.wans, base);
    }
    forall k, f | 0 <= k < |m.profiles|
      ensures ChoosesLike(m, k, Sources(cfgs)[k].0, Sources(cfgs)[k].1, f)
    {
      dst.SelectionIsFaithful(k, f);
      assert (dst.origins[k].0, dst.origins[k].1) == Sources(cfgs)[k];
    }
  }

  /**
   * build_merged_config after loading. A result is always a meaning-preserving merge; there is one
   * exactly when everything fits and the first interface of each name passes validation.
   */
  method BuildMerged(cfgs: seq<Config>) returns (out: Option<Config>)
    requires forall i :: 0 <= i < |cfgs| ==> FitsArrays(cfgs[i])
    ensures out.Some? ==> AllFit(cfgs) && MergeOf(out.value, cfgs)
    ensures out.Some? ==> out.value.cryptoEnabled == if PolicyTotal(cfgs) > 0 then 1 else 0
    ensures out.Some? && PolicyTotal(cfgs) > 0 ==>
      var m := out.value;
      && m.encryptLayer == 3 && m.fakeProtocol == 99 && m.fakeEthertype == 0x88b5
      && |m.policies| > 0 && m.cryptoMode == m.policies[0].cryptoMode && m.aesBits == m.policies[0].aesBits
      && m.nonceSize == m.policies[0].nonceSize
    ensures out.Some? <==> AllFit(cfgs) && WinnersAccepted(cfgs)
  {
    hide FitsArrays;
    hide AllFit;
    hide MergeOf;
    hide SameSources;
    hide NameSet;
    hide LocalNames;
    hide WanNames;
    hide WinnersAccepted;
    hide AddedLocals;
    hide AddedWans;
    var ok, dst := MergeAll(cfgs);
    if !ok {
      return None;
    }
    var merged := Config(dst.locals, dst.wans, dst.profiles, dst.policies, 0, 0, 0, 0, 0, 0, 0);
    if |merged.policies| > 0 {
      var first := merged.policies[0];
      merged := merged.(cryptoEnabled := 1, encryptLayer := 3, fakeProtocol := 99, fakeEthertype := 0x88b5,
                        cryptoMode := first.cryptoMode, aesBits := first.aesBits, nonceSize := first.nonceSize);
    }
    HeldChoices(dst, cfgs, merged);
    AcceptedExactly(cfgs, merged.locals, merged.wans);
    var accepted := Validate(merged, DefaultFrameSize, DefaultBatchSize);
    out := if accepted then Some(merged) else None;
  }

  // ---- selection by local interface ----

  /** Profile k of cfg is enabled and lists an interface of that name. */
  predicate Claims(cfg: Config, k: nat, name: string) {
    k < |cfg.profiles| && cfg.profiles[k].enabled != 0 && name in LocalsOf(cfg.profiles[k], cfg.locals)
  }

  lemma ServedIsClaimed(cfg: Config, k: nat, idx: int)
    requires 0 <= idx < |cfg.locals| && Serves(cfg.profiles, k, idx)
    ensures Claims(cfg, k, cfg.locals[idx].ifname)
  {
    hide Kept;
    var kept := Kept(cfg.profiles[k].locals, |cfg.locals|);
    KeptMembers(cfg.profiles[k].locals, |cfg.locals|);
    var j :| 0 <= j < |kept| && kept[j] == idx;
    assert LocalsOf(cfg.profiles[k], cfg.locals)[j] == cfg.locals[idx].ifname;
  }

  /** Where names are unique, claiming a name is serving its index. */
  lemma ClaimedIsServed(cfg: Config, k: nat, idx: int)
    requires NoDup(LocalNames(cfg.locals)) && 0 <= idx < |cfg.locals|
    requires Claims(cfg, k, cfg.locals[idx].ifname)
    ensures Serves(cfg.profiles, k, idx)
  {
    hide Kept;
    var kept, names := Kept(cfg.profiles[k].locals, |cfg.locals|), LocalNames(cfg.locals);
    KeptMembers(cfg.profiles[k].locals, |cfg.locals|);
    var j :| 0 <= j < |kept| && LocalsOf(cfg.profiles[k], cfg.locals)[j] == cfg.locals[idx].ifname;
    assert names[kept[j]] == names[idx];
    assert kept[j] in kept;
  }

  /** A profile of the merge claims the names its source claims. */
  lemma ClaimsAreKept(m: Config, cfgs: seq<Config>, k: nat, name: string)
    requires MergeOf(m, cfgs) && k < |m.profiles|
    ensures Claims(m, k, name) <==> Claims(Sources(cfgs)[k].0, Sources(cfgs)[k].1, name)
  {
    hide LocalsOf;
    hide ChoosesLike;
    hide WansOf;
    hide IdsDistinct;
    hide NoDup;
    hide NameSet;
    assert Mirrors(m, k, Sources(cfgs)[k].0, Sources(cfgs)[k].1);
  }

  /**
   * Where a profile serves interface q of its own configuration, the merge serves that interface
   * through the same profile exactly when no earlier enabled profile claims the name; and then
   * every flow that comes in there gets the same policy, up to its wire id.
   */
  lemma LocalSelectionSurvives(m: Config, cfgs: seq<Config>, k: nat, q: int, idx: int, f: Flow)
    requires MergeOf(m, cfgs) && k < |m.profiles| && 0 <= idx < |m.locals|
    requires var (src, i) := Sources(cfgs)[k];
             ProfileOfLocal(src, q) == Some(i) && m.locals[idx].ifname == src.locals[q].ifname
    ensures ProfileOfLocal(m, idx) == Some(k)
       <==> forall j :: 0 <= j < k ==> !Claims(Sources(cfgs)[j].0, Sources(cfgs)[j].1, m.locals[idx].ifname)
    ensures ProfileOfLocal(m, idx) == Some(k) ==>
              var (src, i) := Sources(cfgs)[k];
              var picked, origin := PolicyForLocal(m, idx, f), PolicyForLocal(src, q, f);
              && (picked.Some? <==> origin.Some?)
              && (origin.Some?
                  ==> m.policies[picked.value] == src.policies[origin.value].(id := m.policies[picked.value].id))
  {
    hide Serves;
    hide Claims;
    hide SelectPolicy;
    hide Mirrors;
    hide IdsDistinct;
    hide NoDup;
    hide NameSet;
    var (src, i) := Sources(cfgs)[k];
    var name := m.locals[idx].ifname;
    ServedIsClaimed(src, i, q);
    forall j | 0 <= j <= k
      ensures Serves(m.profiles, j, idx) <==> Claims(Sources(cfgs)[j].0, Sources(cfgs)[j].1, name)
    {
      ClaimsAreKept(m, cfgs, j, name);
      if Serves(m.profiles, j, idx) {
        ServedIsClaimed(m, j, idx);
      } else if Claims(m, j, name) {
        ClaimedIsServed(m, j, idx);
      }
    }
    assert ChoosesLike(m, k, src, i, f);
  }

  /** After a merge, every policy that gets a context finds itself in the (action, wire id) table. */
  lemma MergedPoliciesAreFound(m: Config, cfgs: seq<Config>, i: nat)
    requires MergeOf(m, cfgs) && i < |m.policies| && Encrypts(m.policies[i])
    ensures Slot(m.policies, |m.policies|, m.policies[i].action, WireId(m.policies[i])) == i
  {
    hide Slot;
    SlotIsHome(m.policies, i);
  }
}
