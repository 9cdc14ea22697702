/** Merging per-profile configurations into one (src/db/db_runtime.c). */
module ConfigMerge {
  import opened Bytes
  import opened Policy

  // ---- interfaces ----

  function LocalNames(ls: seq<Local>): (r: seq<string>)
    ensures |r| == |ls|
  {
    seq(|ls|, i requires 0 <= i < |ls| => ls[i].ifname)
  }

  function WanNames(ws: seq<Wan>): (r: seq<string>)
    ensures |r| == |ws|
  {
    seq(|ws|, i requires 0 <= i < |ws| => ws[i].ifname)
  }

  /** base followed by those of src whose name is new when their turn comes. */
  function AddedLocals(base: seq<Local>, src: seq<Local>): (r: seq<Local>)
    ensures base <= r
  {
    if src == [] then base
    else
      var r, x := AddedLocals(base, src[..|src| - 1]), src[|src| - 1];
      if x.ifname in LocalNames(r) then r else r + [x]
  }

  function AddedWans(base: seq<Wan>, src: seq<Wan>): (r: seq<Wan>)
    ensures base <= r
  {
    if src == [] then base
    else
      var r, x := AddedWans(base, src[..|src| - 1]), src[|src| - 1];
      if x.ifname in WanNames(r) then r else r + [x]
  }

  lemma AddedLocalsAppend(base: seq<Local>, src: seq<Local>, i: nat)
    requires i < |src|
    ensures AddedLocals(base, src[..i + 1])
         == if src[i].ifname in LocalNames(AddedLocals(base, src[..i])) then AddedLocals(base, src[..i])
            else AddedLocals(base, src[..i]) + [src[i]]
  {
    assert src[..i + 1][..i] == src[..i];
  }

  lemma AddedWansAppend(base: seq<Wan>, src: seq<Wan>, i: nat)
    requires i < |src|
    ensures AddedWans(base, src[..i + 1])
         == if src[i].ifname in WanNames(AddedWans(base, src[..i])) then AddedWans(base, src[..i])
            else AddedWans(base, src[..i]) + [src[i]]
  {
    assert src[..i + 1][..i] == src[..i];
  }

  /** find_local_by_ifname and find_wan_by_ifname: the first index with that name. */
  method FindByName(names: seq<string>, name: string) returns (idx: int)
    ensures idx == -1 <==> name !in names
    ensures idx != -1 ==> 0 <= idx < |names| && names[idx] == name && name !in names[..idx]
  {
    var i := 0;
    while i < |names|
      invariant 0 <= i <= |names| && name !in names[..i]
    {
      if names[i] == name {
        return i;
      }
      i := i + 1;
    }
    idx := -1;
  }

  predicate NoDup(names: seq<string>) {
    forall i, j :: 0 <= i < j < |names| ==> names[i] != names[j]
  }

  function NameSet(names: seq<string>): set<string> {
    set n | n in names
  }

  lemma {:induction false} NoDupSize(names: seq<string>)
    requires NoDup(names)
    ensures |NameSet(names)| == |names|
  {
    if names != [] {
      var rest, x := names[..|names| - 1], names[|names| - 1];
      NoDupSize(rest);
      assert NameSet(names) == NameSet(rest) + {x};
    }
  }

  // ---- wire ids ----

  predicate IdsDistinct(ps: seq<Policy>) {
    && (forall i :: 0 <= i < |ps| ==> 1 <= ps[i].id <= 255)
    && forall i, j :: 0 <= i < j < |ps| ==> ps[i].id != ps[j].id
  }

  predicate Used(ps: seq<Policy>, id: int) {
    exists i :: 0 <= i < |ps| && ps[i].id == id
  }

  function Ids(ps: seq<Policy>): set<int> {
    set i | 0 <= i < |ps| :: ps[i].id
  }

  lemma {:induction false} IdsBound(ps: seq<Policy>)
    ensures |Ids(ps)| <= |ps|
  {
    if ps != [] {
      var rest := ps[..|ps| - 1];
      IdsBound(rest);
      assert Ids(ps) <= Ids(rest) + {ps[|ps| - 1].id};
      SubsetBound(Ids(ps), Ids(rest) + {ps[|ps| - 1].id});
    }
  }

  lemma {:induction false} SubsetBound<T>(a: set<T>, b: set<T>)
    requires a <= b
    ensures |a| <= |b|
  {
    if a != {} {
      var x :| x in a;
      SubsetBound(a - {x}, b - {x});
    }
  }

  function OneTo(n: nat): set<int> {
    if n == 0 then {} else OneTo(n - 1) + {n}
  }

  lemma {:induction false} OneToMembers(n: nat)
    ensures |OneTo(n)| == n
    ensures forall k :: k in OneTo(n) <==> 1 <= k <= n
  {
    if n > 0 {
      OneToMembers(n - 1);
    }
  }

  /** Fewer than 255 policies cannot use up the wire ids 1 to 255. */
  lemma FreeIdExists(ps: seq<Policy>)
    requires |ps| < 255
    ensures exists id :: 1 <= id <= 255 && !Used(ps, id)
  {
    OneToMembers(255);
    if forall id :: 1 <= id <= 255 ==> Used(ps, id) {
      forall id | id in OneTo(255)
        ensures id in Ids(ps)
      {
        assert Used(ps, id);
      }
      SubsetBound(OneTo(255), Ids(ps));
      IdsBound(ps);
    }
  }

  /** The wire id a policy gets: its own if valid and free, else the lowest free one. */
  ghost predicate Assigned(ps: seq<Policy>, wanted: int, id: int) {
    && 1 <= id <= 255 && !Used(ps, id)
    && if 1 <= wanted <= 255 && !Used(ps, wanted) then id == wanted
       else forall k :: 1 <= k < id ==> Used(ps, k)
  }

  /** dst is extended by src, policy by policy, each keeping all but its wire id. */
  ghost predicate Extends(dst: seq<Policy>, src: seq<Policy>, out: seq<Policy>) {
    && |out| == |dst| + |src| && out[..|dst|] == dst
    && forall i :: 0 <= i < |src| ==>
         && out[|dst| + i] == src[i].(id := out[|dst| + i].id)
         && Assigned(out[..|dst| + i], src[i].id, out[|dst| + i].id)
  }

  lemma ExtendsKeepsDistinct(dst: seq<Policy>, src: seq<Policy>, out: seq<Policy>)
    requires IdsDistinct(dst) && Extends(dst, src, out)
    ensures IdsDistinct(out)
  {
    forall i, j | 0 <= i < j < |out|
      ensures out[i].id != out[j].id
    {
      if j < |dst| {
        assert out[i] == dst[i] && out[j] == dst[j];
      } else {
        assert Assigned(out[..|dst| + (j - |dst|)], src[j - |dst|].id, out[|dst| + (j - |dst|)].id);
        assert out[..j][i].id == out[i].id;
      }
    }
    forall i | 0 <= i < |out|
      ensures 1 <= out[i].id <= 255
    {
      if i < |dst| {
        assert out[i] == dst[i];
      } else {
        assert Assigned(out[..|dst| + (i - |dst|)], src[i - |dst|].id, out[|dst| + (i - |dst|)].id);
      }
    }
  }

  // ---- merged configuration ----

  /** In range of the source lists, as the merge keeps it. */
  function Kept(indices: seq<int>, n: nat): (r: seq<int>)
    ensures |r| <= |indices| && forall k :: 0 <= k < |r| ==> 0 <= r[k] < n
  {
    if indices == [] then []
    else Kept(indices[..|indices| - 1], n)
         + if 0 <= indices[|indices| - 1] < n then [indices[|indices| - 1]] else []
  }

  function KeptWans(ws: seq<(int, int)>, n: nat): (r: seq<(int, int)>)
    ensures |r| <= |ws| && forall k :: 0 <= k < |r| ==> 0 <= r[k].0 < n
  {
    if ws == [] then []
    else KeptWans(ws[..|ws| - 1], n) + if 0 <= ws[|ws| - 1].0 < n then [ws[|ws| - 1]] else []
  }

  /** A configuration whose lists fit the C arrays. */
  predicate FitsArrays(cfg: Config) {
    && |cfg.locals| <= MaxInterfaces && |cfg.wans| <= MaxInterfaces
    && |cfg.policies| <= MaxPolicies && |cfg.profiles| <= MaxProfiles
    && forall p :: 0 <= p < |cfg.profiles| ==> ProfileFits(cfg.profiles[p])
  }

  /**
   * Profile dp of the merged lists stands for profile sp of src: same identity; its kept interface
   * indices lead to interfaces of the same name with the same weights; its kept policy indices,
   * moved up by base, lead to the same policies.
   */
  ghost predicate Represents(dp: Profile, sp: Profile, src: Config, locals: seq<Local>, wans: seq<Wan>, base: nat) {
    var ls, ws, ps := Kept(sp.locals, |src.locals|), KeptWans(sp.wans, |src.wans|), Kept(sp.policies, |src.policies|);
    && dp.id == sp.id && dp.name == sp.name && dp.enabled == sp.enabled
    && |dp.locals| == |ls| && |dp.wans| == |ws| && |dp.policies| == |ps|
    && (forall k :: 0 <= k < |ls| ==>
          0 <= dp.locals[k] < |locals| && locals[dp.locals[k]].ifname == src.locals[ls[k]].ifname)
    && (forall k :: 0 <= k < |ws| ==>
          0 <= dp.wans[k].0 < |wans| && wans[dp.wans[k].0].ifname == src.wans[ws[k].0].ifname
              && dp.wans[k].1 == ws[k].1)
    && (forall k :: 0 <= k < |ps| ==> dp.policies[k] == base + ps[k])
  }

  lemma {:induction false} KeptMembers(indices: seq<int>, n: nat)
    ensures forall x :: x in Kept(indices, n) <==> x in indices && 0 <= x < n
  {
    if indices != [] {
      KeptMembers(indices[..|indices| - 1], n);
    }
  }

  lemma {:induction false} KeptAll(indices: seq<int>, n: nat)
    requires forall k :: 0 <= k < |indices| ==> 0 <= indices[k] < n
    ensures Kept(indices, n) == indices
  {
    if indices != [] {
      KeptAll(indices[..|indices| - 1], n);
    }
  }

  lemma {:induction false} KeptAllWans(ws: seq<(int, int)>, n: nat)
    requires forall k :: 0 <= k < |ws| ==> 0 <= ws[k].0 < n
    ensures KeptWans(ws, n) == ws
  {
    if ws != [] {
      KeptAllWans(ws[..|ws| - 1], n);
    }
  }

  /** The names of a profile's local interfaces, in its order. */
  function LocalsOf(p: Profile, locals: seq<Local>): (r: seq<string>)
    ensures |r| == |Kept(p.locals, |locals|)|
  {
    var kept := Kept(p.locals, |locals|);
    seq(|kept|, k requires 0 <= k < |kept| => locals[kept[k]].ifname)
  }

  /** The names of a profile's WANs with their weights, in its order. */
  function WansOf(p: Profile, wans: seq<Wan>): (r: seq<(string, int)>)
    ensures |r| == |KeptWans(p.wans, |wans|)|
  {
    var kept := KeptWans(p.wans, |wans|);
    seq(|kept|, k requires 0 <= k < |kept| => (wans[kept[k].0].ifname, kept[k].1))
  }

  /** A profile that stands for another has the same interfaces, by name, and the same weights. */
  lemma SameInterfaces(dp: Profile, sp: Profile, src: Config, locals: seq<Local>, wans: seq<Wan>, base: nat)
    requires Represents(dp, sp, src, locals, wans, base)
    ensures LocalsOf(dp, locals) == LocalsOf(sp, src.locals) && WansOf(dp, wans) == WansOf(sp, src.wans)
  {
    hide Kept;
    hide KeptWans;
    KeptAll(dp.locals, |locals|);
    KeptAllWans(dp.wans, |wans|);
  }

  lemma KeptAppend(indices: seq<int>, i: nat, n: nat)
    requires i < |indices|
    ensures Kept(indices[..i + 1], n) == Kept(indices[..i], n) + if 0 <= indices[i] < n then [indices[i]] else []
  {
    assert indices[..i + 1][..i] == indices[..i];
  }

  lemma KeptWansAppend(ws: seq<(int, int)>, i: nat, n: nat)
    requires i < |ws|
    ensures KeptWans(ws[..i + 1], n) == KeptWans(ws[..i], n) + if 0 <= ws[i].0 < n then [ws[i]] else []
  {
    assert ws[..i + 1][..i] == ws[..i];
  }

  /** Growing the interface lists at the end keeps what a profile stands for. */
  lemma RepresentsGrow(dp: Profile, sp: Profile, src: Config, ls: seq<Local>, ls': seq<Local>, ws: seq<Wan>,
                       ws': seq<Wan>, base: nat)
    requires Represents(dp, sp, src, ls, ws, base) && ls <= ls' && ws <= ws'
    ensures Represents(dp, sp, src, ls', ws', base)
  {
  }

  // ---- selection is preserved ----

  /** The policy index, not its position, that a pass finds first. */
  function FirstIndex(policies: seq<Policy>, indices: seq<int>, pass: nat, f: Flow): Option<int> {
    var r := FirstFrom(policies, indices, pass, 0, f);
    if r.Some? then Some(indices[r.value]) else None
  }

  lemma FirstIndexAppend(policies: seq<Policy>, indices: seq<int>, x: int, pass: nat, f: Flow)
    ensures FirstIndex(policies, indices + [x], pass, f)
         == if FirstIndex(policies, indices, pass, f).Some? then FirstIndex(policies, indices, pass, f)
            else if 0 <= x < |policies| && Applies(policies[x], pass, f) then Some(x) else None
  {
    var short := FirstFrom(policies, indices, pass, 0, f);
    var long := FirstFrom(policies, indices + [x], pass, 0, f);
    assert forall k :: 0 <= k < |indices| ==>
      Candidate(policies, indices + [x], pass, k, f) == Candidate(policies, indices, pass, k, f);
    if long.Some? && short.Some? {
      assert Candidate(policies, indices + [x], pass, short.value, f);
    }
    if 0 <= x < |policies| && Applies(policies[x], pass, f) {
      assert Candidate(policies, indices + [x], pass, |indices|, f);
    }
  }

  /** Dropping out-of-range indices does not change what is found. */
  lemma {:induction false} FirstIndexKept(policies: seq<Policy>, indices: seq<int>, pass: nat, f: Flow)
    ensures FirstIndex(policies, Kept(indices, |policies|), pass, f) == FirstIndex(policies, indices, pass, f)
  {
    if indices != [] {
      var rest, x := indices[..|indices| - 1], indices[|indices| - 1];
      FirstIndexKept(policies, rest, pass, f);
      assert indices == rest + [x];
      FirstIndexAppend(policies, rest, x, pass, f);
      if 0 <= x < |policies| {
        FirstIndexAppend(policies, Kept(rest, |policies|), x, pass, f);
      } else {
        assert Kept(indices, |policies|) == Kept(rest, |policies|);
      }
    }
  }

  /** from's policies sit in to at base, up to their wire ids. */
  ghost predicate Embedded(from: seq<Policy>, to: seq<Policy>, base: nat) {
    base + |from| <= |to| && forall q :: 0 <= q < |from| ==> to[base + q] == from[q].(id := to[base + q].id)
  }

  lemma FirstIndexMoved(from: seq<Policy>, to: seq<Policy>, base: nat, indices: seq<int>, moved: seq<int>, pass: nat,
                        f: Flow)
    requires Embedded(from, to, base) && |moved| == |indices|
    requires forall k :: 0 <= k < |indices| ==> 0 <= indices[k] < |from| && moved[k] == base + indices[k]
    ensures FirstIndex(to, moved, pass, f)
         == if FirstIndex(from, indices, pass, f).Some? then Some(base + FirstIndex(from, indices, pass, f).value)
             else None
  {
    var a, b := FirstFrom(from, indices, pass, 0, f), FirstFrom(to, moved, pass, 0, f);
    forall k | 0 <= k < |indices|
      ensures Candidate(to, moved, pass, k, f) == Candidate(from, indices, pass, k, f)
    {
      assert to[base + indices[k]] == from[indices[k]].(id := to[base + indices[k]].id);
    }
    if a.Some? {
      assert Candidate(to, moved, pass, a.value, f);
    }
    if b.Some? {
      assert Candidate(from, indices, pass, b.value, f);
    }
  }

  lemma SelectByIndex(policies: seq<Policy>, indices: seq<int>, f: Flow)
    ensures var specific := FirstIndex(policies, indices, 0, f);
            Select(policies, indices, f) == if specific.Some? then specific else FirstIndex(policies, indices, 1, f)
  {
  }

  /**
   * Selecting through a merged profile picks, for every flow, the same policy as selecting
   * through the source profile it stands for - the same in all but its wire id.
   */
  lemma SelectionPreserved(dp: Profile, sp: Profile, src: Config, ls: seq<Local>, ws: seq<Wan>, to: seq<Policy>,
                           base: nat, f: Flow)
    requires Represents(dp, sp, src, ls, ws, base) && Embedded(src.policies, to, base)
    ensures var picked, origin := Select(to, dp.policies, f), Select(src.policies, sp.policies, f);
            && (picked.Some? <==> origin.Some?)
            && (origin.Some? ==> to[picked.value] == src.policies[origin.value].(id := to[picked.value].id))
  {
    hide FirstIndex;
    hide FirstFrom;
    hide Select;
    hide Kept;
    hide KeptWans;
    var kept := Kept(sp.policies, |src.policies|);
    FirstIndexKept(src.policies, sp.policies, 0, f);
    FirstIndexKept(src.policies, sp.policies, 1, f);
    FirstIndexMoved(src.policies, to, base, kept, dp.policies, 0, f);
    FirstIndexMoved(src.policies, to, base, kept, dp.policies, 1, f);
    SelectByIndex(src.policies, sp.policies, f);
    SelectByIndex(to, dp.policies, f);
  }

  /** The index loops of a profile copy: out-of-range indices are dropped, the others mapped. */
  method CopyIndices(indices: seq<int>, mapped: seq<int>, limit: nat) returns (out: seq<int>)
    requires |indices| <= limit
    ensures var kept := Kept(indices, |mapped|);
            |out| == |kept| && forall k :: 0 <= k < |kept| ==> out[k] == mapped[kept[k]]
  {
    out := [];
    var i := 0;
    while i < |indices|
      invariant 0 <= i <= |indices|
      invariant var kept := Kept(indices[..i], |mapped|);
                |out| == |kept| && forall k :: 0 <= k < |kept| ==> out[k] == mapped[kept[k]]
    {
      KeptAppend(indices, i, |mapped|);
      if 0 <= indices[i] < |mapped| {
        if |out| >= limit {
          break;
        }
        out := out + [mapped[indices[i]]];
      }
      i := i + 1;
    }
    assert indices[..i] == indices;
  }

  method CopyWans(ws: seq<(int, int)>, mapped: seq<int>) returns (out: seq<(int, int)>)
    requires |ws| <= MaxProfileInterfaces
    ensures var kept := KeptWans(ws, |mapped|);
            |out| == |kept| && forall k :: 0 <= k < |kept| ==> out[k] == (mapped[kept[k].0], kept[k].1)
  {
    out := [];
    var i := 0;
    while i < |ws|
      invariant 0 <= i <= |ws|
      invariant var kept := KeptWans(ws[..i], |mapped|);
                |out| == |kept| && forall k :: 0 <= k < |kept| ==> out[k] == (mapped[kept[k].0], kept[k].1)
    {
      KeptWansAppend(ws, i, |mapped|);
      if 0 <= ws[i].0 < |mapped| {
        if |out| >= MaxProfileInterfaces {
          break;
        }
        out := out + [(mapped[ws[i].0], ws[i].1)];
      }
      i := i + 1;
    }
    assert ws[..i] == ws;
  }

  /** localMap sends each source interface to one of the same name. */
  ghost predicate MapsLocals(src: seq<Local>, dst: seq<Local>, localMap: seq<int>) {
    |localMap| == |src| && forall i :: 0 <= i < |src| ==>
      0 <= localMap[i] < |dst| && dst[localMap[i]].ifname == src[i].ifname
  }

  lemma NoneMappedLocals(dst: seq<Local>)
    ensures forall src: seq<Local> :: MapsLocals(src[..0], dst, []) && AddedLocals(dst, src[..0]) == dst
  {
  }

  lemma MapsLocalsStep(src: seq<Local>, i: nat, before: seq<Local>, after: seq<Local>, indices: seq<int>, idx: int)
    requires i < |src| && MapsLocals(src[..i], before, indices) && before <= after
    requires 0 <= idx < |after| && after[idx].ifname == src[i].ifname
    ensures MapsLocals(src[..i + 1], after, indices + [idx])
  {
  }

  /** Adding keeps names unique and accounts for all of them. */
  lemma {:induction false} AddedLocalsNames(base: seq<Local>, src: seq<Local>)
    requires NoDup(LocalNames(base))
    ensures var r := AddedLocals(base, src);
            NoDup(LocalNames(r)) && NameSet(LocalNames(r)) == NameSet(LocalNames(base)) + NameSet(LocalNames(src))
  {
    hide NoDup;
    if src == [] {
      assert NameSet(LocalNames(src)) == {};
    } else {
      var rest, x := src[..|src| - 1], src[|src| - 1];
      AddedLocalsNames(base, rest);
      var before, after := AddedLocals(base, rest), AddedLocals(base, src);
      assert LocalNames(src) == LocalNames(rest) + [x.ifname];
      assert after != before ==> LocalNames(after) == LocalNames(before) + [x.ifname];
      NameAdded(LocalNames(before), LocalNames(after), x.ifname);
      NameSetAppend(LocalNames(rest), x.ifname);
    }
  }

  lemma LocalsOverflow(base: seq<Local>, src: seq<Local>, i: nat)
    requires i < |src| && NoDup(LocalNames(base)) && |AddedLocals(base, src[..i])| >= MaxInterfaces
    requires src[i].ifname !in LocalNames(AddedLocals(base, src[..i]))
    ensures |NameSet(LocalNames(base)) + NameSet(LocalNames(src))| > MaxInterfaces
  {
    hide NoDup;
    hide AddedLocals;
    AddedLocalsNames(base, src[..i]);
    assert LocalNames(src[..i]) == LocalNames(src)[..i];
    NamesOverflow(LocalNames(base), LocalNames(src), i, LocalNames(AddedLocals(base, src[..i])));
  }

  ghost predicate MapsWans(src: seq<Wan>, dst: seq<Wan>, wanMap: seq<int>) {
    |wanMap| == |src| && forall i :: 0 <= i < |src| ==> 0 <= wanMap[i] < |dst| && dst[wanMap[i]].ifname == src[i].ifname
  }

  lemma NoneMappedWans(dst: seq<Wan>)
    ensures forall src: seq<Wan> :: MapsWans(src[..0], dst, []) && AddedWans(dst, src[..0]) == dst
  {
  }

  lemma MapsWansStep(src: seq<Wan>, i: nat, before: seq<Wan>, after: seq<Wan>, indices: seq<int>, idx: int)
    requires i < |src| && MapsWans(src[..i], before, indices) && before <= after
    requires 0 <= idx < |after| && after[idx].ifname == src[i].ifname
    ensures MapsWans(src[..i + 1], after, indices + [idx])
  {
  }

  /** Adding keeps names unique and accounts for all of them. */
  lemma {:induction false} AddedWansNames(base: seq<Wan>, src: seq<Wan>)
    requires NoDup(WanNames(base))
    ensures var r := AddedWans(base, src);
            NoDup(WanNames(r)) && NameSet(WanNames(r)) == NameSet(WanNames(base)) + NameSet(WanNames(src))
  {
    hide NoDup;
    if src == [] {
      assert NameSet(WanNames(src)) == {};
    } else {
      var rest, x := src[..|src| - 1], src[|src| - 1];
      AddedWansNames(base, rest);
      var before, after := AddedWans(base, rest), AddedWans(base, src);
      assert WanNames(src) == WanNames(rest) + [x.ifname];
      assert after != before ==> WanNames(after) == WanNames(before) + [x.ifname];
      NameAdded(WanNames(before), WanNames(after), x.ifname);
      NameSetAppend(WanNames(rest), x.ifname);
    }
  }

  lemma WansOverflow(base: seq<Wan>, src: seq<Wan>, i: nat)
    requires i < |src| && NoDup(WanNames(base)) && |AddedWans(base, src[..i])| >= MaxInterfaces
    requires src[i].ifname !in WanNames(AddedWans(base, src[..i]))
    ensures |NameSet(WanNames(base)) + NameSet(WanNames(src))| > MaxInterfaces
  {
    hide NoDup;
    hide AddedWans;
    AddedWansNames(base, src[..i]);
    assert WanNames(src[..i]) == WanNames(src)[..i];
    NamesOverflow(WanNames(base), WanNames(src), i, WanNames(AddedWans(base, src[..i])));
  }

  ghost predicate MapsPolicies(n: nat, base: nat, policyMap: seq<int>) {
    |policyMap| == n && forall i :: 0 <= i < n ==> policyMap[i] == base + i
  }

  predicate ProfileFits(p: Profile) {
    |p.locals| <= MaxProfileInterfaces && |p.wans| <= MaxProfileInterfaces && |p.policies| <= MaxPolicies
  }

  /** The destination of a merge, updated in place. */
  class Merged {
    var locals: seq<Local>
    var wans: seq<Wan>
    var policies: seq<Policy>
    var profiles: seq<Profile>
    /** For each merged profile: its source configuration, its index there, and where its policies start. */
    ghost var origins: seq<(Config, nat, nat)>

    /** Merged profile k stands for its origin. */
    ghost predicate Faithful(k: nat)
      requires k < |profiles| == |origins|
      reads this
    {
      var (src, i, base) := origins[k];
      && i < |src.profiles| && Embedded(src.policies, policies, base)
      && Represents(profiles[k], src.profiles[i], src, locals, wans, base)
    }

    ghost predicate Valid()
      reads this
    {
      && |locals| <= MaxInterfaces && |wans| <= MaxInterfaces && |policies| <= MaxPolicies && |profiles| <= MaxProfiles
      && NoDup(LocalNames(locals)) && NoDup(WanNames(wans))
      && IdsDistinct(policies)
      && AllFaithful()
    }

    ghost predicate AllFaithful()
      reads this
    {
      |origins| == |profiles| && forall k :: 0 <= k < |profiles| ==> Faithful(k)
    }

    constructor ()
      ensures Valid() && locals == [] && wans == [] && policies == [] && profiles == []
    {
      locals, wans, policies, profiles, origins := [], [], [], [], [];
    }

    /** append_local_unique: an existing interface of that name, or a new entry, or -1 when full. */
    method AppendLocalUnique(x: Local) returns (idx: int)
      modifies `locals
      ensures idx == -1 <==> x.ifname !in LocalNames(old(locals)) && |old(locals)| >= MaxInterfaces
      ensures locals == if idx == -1 || x.ifname in LocalNames(old(locals)) then old(locals) else old(locals) + [x]
      ensures LocalNames(locals) == if locals == old(locals) then LocalNames(old(locals))
              else LocalNames(old(locals)) + [x.ifname]
      ensures idx != -1 ==> 0 <= idx < |locals| && locals[idx].ifname == x.ifname
    {
      idx := FindByName(LocalNames(locals), x.ifname);
      if idx >= 0 {
        return;
      }
      if |locals| >= MaxInterfaces {
        return -1;
      }
      locals := locals + [x];
      idx := |locals| - 1;
    }

    /** append_wan_unique. */
    method AppendWanUnique(x: Wan) returns (idx: int)
      modifies `wans
      ensures idx == -1 <==> x.ifname !in WanNames(old(wans)) && |old(wans)| >= MaxInterfaces
      ensures wans == if idx == -1 || x.ifname in WanNames(old(wans)) then old(wans) else old(wans) + [x]
      ensures WanNames(wans) == if wans == old(wans) then WanNames(old(wans)) else WanNames(old(wans)) + [x.ifname]
      ensures idx != -1 ==> 0 <= idx < |wans| && wans[idx].ifname == x.ifname
    {
      idx := FindByName(WanNames(wans), x.ifname);
      if idx >= 0 {
        return;
      }
      if |wans| >= MaxInterfaces {
        return -1;
      }
      wans := wans + [x];
      idx := |wans| - 1;
    }

    /** collect_used_wire_ids. */
    method CollectUsedWireIds() returns (used: array<bool>)
      ensures fresh(used) && used.Length == 256
      ensures forall id :: 0 <= id < 256 ==> (used[id] <==> 1 <= id && Used(policies, id))
    {
      used := new bool[256](_ => false);
      var i := 0;
      while i < |policies|
        invariant 0 <= i <= |policies|
        invariant forall id :: 0 <= id < 256 ==> (used[id] <==> 1 <= id && Used(policies[..i], id))
      {
        var wid := policies[i].id;
        assert policies[..i + 1] == policies[..i] + [policies[i]];
        assert forall id :: Used(policies[..i + 1], id) <==> Used(policies[..i], id) || id == wid by {
          UsedAppend(policies[..i], policies[i]);
        }
        if 1 <= wid <= 255 {
          used[wid] := true;
        }
        i := i + 1;
      }
      assert policies[..i] == policies;
    }

    /** append_policy_unique: fails only when the policy array is full; ids never run out before. */
    method AppendPolicyUnique(x: Policy) returns (idx: int)
      modifies `policies
      ensures idx == -1 <==> |old(policies)| >= MaxPolicies
      ensures idx == -1 ==> policies == old(policies)
      ensures idx != -1 ==>
        && idx == |old(policies)| && |policies| == idx + 1 && policies[..idx] == old(policies)
        && policies[idx] == x.(id := policies[idx].id) && Assigned(old(policies), x.id, policies[idx].id)
    {
      if |policies| >= MaxPolicies {
        return -1;
      }
      var used := CollectUsedWireIds();
      var wid := x.id;
      if wid < 1 || wid > 255 || used[wid] {
        var found := -1;
        var j := 1;
        while j <= 255 && found < 0
          invariant 1 <= j <= 256
          invariant found == -1 || (1 <= found <= 255 && !used[found] && forall k :: 1 <= k < found ==> used[k])
          invariant found == -1 ==> forall k :: 1 <= k < j ==> used[k]
          decreases 256 - j, -found
        {
          if !used[j] {
            found := j;
          } else {
            j := j + 1;
          }
        }
        if found < 0 {
          FreeIdExists(policies);
          assert false;
        }
        wid := found;
      }
      policies := policies + [x.(id := wid)];
      idx := |policies| - 1;
    }

    /** The interface loop over src->locals: it fails exactly when the names do not all fit. */
    method MergeLocals(src: seq<Local>) returns (ok: bool, indices: seq<int>)
      requires NoDup(LocalNames(locals)) && |locals| <= MaxInterfaces
      modifies `locals
      ensures NoDup(LocalNames(locals)) && |locals| <= MaxInterfaces && old(locals) <= locals
      ensures ok <==> |NameSet(LocalNames(old(locals))) + NameSet(LocalNames(src))| <= MaxInterfaces
      ensures ok ==> MapsLocals(src, locals, indices)
      ensures ok ==> NameSet(LocalNames(locals)) == NameSet(LocalNames(old(locals))) + NameSet(LocalNames(src))
      ensures ok ==> locals == AddedLocals(old(locals), src)
    {
      hide NoDup;
      hide NameSet;
      hide LocalNames;
      hide AddedLocals;
      hide MapsLocals;
      indices := [];
      var i := 0;
      NoneMappedLocals(locals);
      while i < |src|
        invariant 0 <= i <= |src| && |locals| <= MaxInterfaces
        invariant locals == AddedLocals(old(locals), src[..i]) && MapsLocals(src[..i], locals, indices)
      {
        ghost var before := locals;
        AddedLocalsAppend(old(locals), src, i);
        var idx := AppendLocalUnique(src[i]);
        if idx < 0 {
          LocalsOverflow(old(locals), src, i);
          AddedLocalsNames(old(locals), src[..i]);
          return false, [];
        }
        MapsLocalsStep(src, i, before, locals, indices, idx);
        indices := indices + [idx];
        i := i + 1;
      }
      assert src[..i] == src;
      AddedLocalsNames(old(locals), src);
      NoDupSize(LocalNames(locals));
      ok := true;
    }

    /** The interface loop over src->wans. */
    method MergeWans(src: seq<Wan>) returns (ok: bool, indices: seq<int>)
      requires NoDup(WanNames(wans)) && |wans| <= MaxInterfaces
      modifies `wans
      ensures NoDup(WanNames(wans)) && |wans| <= MaxInterfaces && old(wans) <= wans
      ensures ok <==> |NameSet(WanNames(old(wans))) + NameSet(WanNames(src))| <= MaxInterfaces
      ensures ok ==> MapsWans(src, wans, indices)
      ensures ok ==> NameSet(WanNames(wans)) == NameSet(WanNames(old(wans))) + NameSet(WanNames(src))
      ensures ok ==> wans == AddedWans(old(wans), src)
    {
      hide NoDup;
      hide NameSet;
      hide WanNames;
      hide AddedWans;
      hide MapsWans;
      indices := [];
      var i := 0;
      NoneMappedWans(wans);
      while i < |src|
        invariant 0 <= i <= |src| && |wans| <= MaxInterfaces
        invariant wans == AddedWans(old(wans), src[..i]) && MapsWans(src[..i], wans, indices)
      {
        ghost var before := wans;
        AddedWansAppend(old(wans), src, i);
        var idx := AppendWanUnique(src[i]);
        if idx < 0 {
          WansOverflow(old(wans), src, i);
          AddedWansNames(old(wans), src[..i]);
          return false, [];
        }
        MapsWansStep(src, i, before, wans, indices, idx);
        indices := indices + [idx];
        i := i + 1;
      }
      assert src[..i] == src;
      AddedWansNames(old(wans), src);
      NoDupSize(WanNames(wans));
      ok := true;
    }

    /** The policy loop: it fails exactly when the array is too small. */
    method MergePolicies(src: seq<Policy>) returns (ok: bool, indices: seq<int>)
      requires IdsDistinct(policies) && |policies| <= MaxPolicies
      modifies `policies
      ensures IdsDistinct(policies) && |policies| <= MaxPolicies && old(policies) <= policies
      ensures ok <==> |old(policies)| + |src| <= MaxPolicies
      ensures ok ==> Extends(old(policies), src, policies)
      ensures ok ==> MapsPolicies(|src|, |old(policies)|, indices)
    {
      indices := [];
      var i := 0;
      while i < |src|
        invariant 0 <= i <= |src| && |indices| == i
        invariant |policies| <= MaxPolicies
        invariant Extends(old(policies), src[..i], policies)
        invariant forall k :: 0 <= k < i ==> indices[k] == |old(policies)| + k
      {
        ghost var before := policies;
        var idx := AppendPolicyUnique(src[i]);
        if idx < 0 {
          ExtendsKeepsDistinct(old(policies), src[..i], policies);
          return false, [];
        }
        ExtendsOne(old(policies), src, i, before, policies);
        indices := indices + [idx];
        i := i + 1;
      }
      assert src[..i] == src;
      ExtendsKeepsDistinct(old(policies), src, policies);
      ok := true;
    }

    /** One turn of the profile loop: the copy of sp with its indices rewritten. */
    method CopyProfile(src: Config, sp: Profile, localMap: seq<int>, wanMap: seq<int>, policyMap: seq<int>,
                       ghost base: nat)
      returns (dp: Profile)
      requires MapsLocals(src.locals, locals, localMap) && MapsWans(src.wans, wans, wanMap)
      requires MapsPolicies(|src.policies|, base, policyMap) && ProfileFits(sp)
      ensures Represents(dp, sp, src, locals, wans, base)
    {
      hide Kept;
      hide KeptWans;
      var ls := CopyIndices(sp.locals, localMap, MaxProfileInterfaces);
      var ws := CopyWans(sp.wans, wanMap);
      var ps := CopyIndices(sp.policies, policyMap, MaxPolicies);
      dp := Profile(sp.id, sp.name, sp.enabled, ls, ws, ps);
    }

    /** The profile loop: it fails exactly when the array is too small. */
    method MergeProfiles(src: Config, localMap: seq<int>, wanMap: seq<int>, policyMap: seq<int>, ghost base: nat)
      returns (ok: bool)
      requires FitsArrays(src) && AllFaithful() && |profiles| <= MaxProfiles
      requires MapsLocals(src.locals, locals, localMap) && MapsWans(src.wans, wans, wanMap)
      requires MapsPolicies(|src.policies|, base, policyMap) && Embedded(src.policies, policies, base)
      modifies `profiles, `origins
      ensures AllFaithful() && |profiles| <= MaxProfiles
      ensures ok <==> |old(profiles)| + |src.profiles| <= MaxProfiles
      ensures old(profiles) <= profiles && old(origins) <= origins
      ensures ok ==> origins == old(origins) + Copies(src, base, |src.profiles|)
    {
      hide MapsLocals;
      hide MapsWans;
      hide MapsPolicies;
      hide Represents;
      hide Embedded;
      hide ProfileFits;
      var pi := 0;
      while pi < |src.profiles|
        invariant 0 <= pi <= |src.profiles|
        invariant |profiles| <= MaxProfiles && |profiles| == |old(profiles)| + pi
        invariant old(profiles) <= profiles
        invariant origins == old(origins) + Copies(src, base, pi)
        invariant AllFaithful()
      {
        if |profiles| >= MaxProfiles {
          return false;
        }
        var dp := CopyProfile(src, src.profiles[pi], localMap, wanMap, policyMap, base);
        AddProfile(dp, src, pi, base);
        pi := pi + 1;
      }
      ok := true;
    }

    method AddProfile(dp: Profile, ghost src: Config, ghost pi: nat, ghost base: nat)
      requires AllFaithful() && pi < |src.profiles| && Embedded(src.policies, policies, base)
      requires Represents(dp, src.profiles[pi], src, locals, wans, base)
      modifies `profiles, `origins
      ensures AllFaithful()
      ensures profiles == old(profiles) + [dp] && origins == old(origins) + [(src, pi, base)]
    {
      hide Represents;
      hide Embedded;
      profiles := profiles + [dp];
      origins := origins + [(src, pi, base)];
      forall k | 0 <= k < |profiles|
        ensures Faithful(k)
      {
        assert k < |old(profiles)| ==> old(Faithful(k));
      }
    }

    /**
     * merge_one_config. It fails exactly when some array is too small; whenever it returns, every
     * profile merged so far still stands for its source profile.
     */
    method MergeOne(src: Config) returns (ok: bool)
      requires Valid() && FitsArrays(src)
      modifies this
      ensures Valid()
      ensures ok <==>
        && |NameSet(LocalNames(old(locals))) + NameSet(LocalNames(src.locals))| <= MaxInterfaces
        && |NameSet(WanNames(old(wans))) + NameSet(WanNames(src.wans))| <= MaxInterfaces
        && |old(policies)| + |src.policies| <= MaxPolicies
        && |old(profiles)| + |src.profiles| <= MaxProfiles
      ensures old(locals) <= locals && old(wans) <= wans && old(policies) <= policies
      ensures old(profiles) <= profiles && old(origins) <= origins
      ensures ok ==> NameSet(LocalNames(locals)) == NameSet(LocalNames(old(locals))) + NameSet(LocalNames(src.locals))
      ensures ok ==> locals == AddedLocals(old(locals), src.locals)
      ensures ok ==> NameSet(WanNames(wans)) == NameSet(WanNames(old(wans))) + NameSet(WanNames(src.wans))
      ensures ok ==> wans == AddedWans(old(wans), src.wans)
      ensures ok ==> Extends(old(policies), src.policies, policies)
      ensures ok ==> origins == old(origins) + Copies(src, |old(policies)|, |src.profiles|)
    {
      hide Represents;
      hide Extends;
      hide IdsDistinct;
      hide NoDup;
      hide NameSet;
      hide LocalNames;
      hide WanNames;
      hide MapsLocals;
      hide MapsWans;
      hide MapsPolicies;
      hide Copies;
      hide AllFaithful;
      hide Embedded;
      var localMap, wanMap, policyMap: seq<int>;
      ok, localMap := MergeLocals(src.locals);
      if ok {
        ok, wanMap := MergeWans(src.wans);
        if ok {
          ok, policyMap := MergePolicies(src.policies);
        }
      }
      FaithfulGrows();
      if ok {
        ExtendsEmbeds(old(policies), src.policies, policies);
        ok := MergeProfiles(src, localMap, wanMap, policyMap, |old(policies)|);
      }
    }

    /** Interfaces and policies appended at the end leave every merged profile faithful. */
    twostate lemma FaithfulGrows()
      requires profiles == old(profiles) && origins == old(origins)
      requires old(locals) <= locals && old(wans) <= wans && old(policies) <= policies
      requires old(AllFaithful())
      ensures AllFaithful()
    {
      forall k | 0 <= k < |profiles|
        ensures Faithful(k)
      {
        assert old(Faithful(k));
        var (src, i, base) := origins[k];
        RepresentsGrow(profiles[k], src.profiles[i], src, old(locals), locals, old(wans), wans, base);
      }
    }

    /** For every merged profile and every flow, selection is that of its source profile. */
    lemma SelectionIsFaithful(k: nat, f: Flow)
      requires Valid() && k < |profiles|
      ensures var (src, i, _) := origins[k];
              var picked, origin := Select(policies, profiles[k].policies, f), SelectPolicy(src, i, f);
              && (picked.Some? <==> origin.Some?)
              && (origin.Some?
                  ==> policies[picked.value] == src.policies[origin.value].(id := policies[picked.value].id))
    {
      hide Represents;
      hide Select;
      assert Faithful(k);
      var (src, i, base) := origins[k];
      SelectionPreserved(profiles[k], src.profiles[i], src, locals, wans, policies, base, f);
    }
  }

  /** The origins that merging n profiles of src at base adds. */
  ghost function Copies(src: Config, base: nat, n: nat): (r: seq<(Config, nat, nat)>)
    ensures |r| == n && forall i :: 0 <= i < n ==> r[i] == (src, i, base)
  {
    seq(n, i => (src, i, base))
  }

  lemma ExtendsEmbeds(dst: seq<Policy>, src: seq<Policy>, out: seq<Policy>)
    requires Extends(dst, src, out)
    ensures Embedded(src, out, |dst|)
  {
  }

  lemma ExtendsOne(dst: seq<Policy>, src: seq<Policy>, i: nat, before: seq<Policy>, after: seq<Policy>)
    requires i < |src| && Extends(dst, src[..i], before)
    requires |after| == |before| + 1 && after[..|before|] == before
    requires after[|before|] == src[i].(id := after[|before|].id) && Assigned(before, src[i].id, after[|before|].id)
    ensures Extends(dst, src[..i + 1], after)
  {
    forall k | 0 <= k < i + 1
      ensures after[|dst| + k] == src[k].(id := after[|dst| + k].id)
      ensures Assigned(after[..|dst| + k], src[k].id, after[|dst| + k].id)
    {
      if k < i {
        assert before[|dst| + k] == after[|dst| + k] && src[..i][k] == src[k];
        assert before[..|dst| + k] == after[..|dst| + k];
        assert Assigned(before[..|dst| + k], src[..i][k].id, before[|dst| + k].id);
      }
    }
    assert after[..|dst|] == before[..|dst|];
  }

  lemma NameSetAppend(names: seq<string>, x: string)
    ensures NameSet(names + [x]) == NameSet(names) + {x}
  {
  }

  /** A name that is new when it is added keeps names unique. */
  lemma NameAdded(before: seq<string>, after: seq<string>, x: string)
    requires NoDup(before)
    requires if x in before then after == before else after == before + [x]
    ensures NoDup(after) && NameSet(after) == NameSet(before) + {x}
  {
  }

  /** A name that finds the array full means there are more names than places. */
  lemma NamesOverflow(names0: seq<string>, names: seq<string>, i: nat, before: seq<string>)
    requires i < |names| && NoDup(before) && NameSet(before) == NameSet(names0) + NameSet(names[..i])
    requires names[i] !in before && |before| >= MaxInterfaces
    ensures |NameSet(names0) + NameSet(names)| > MaxInterfaces
  {
    NoDupSize(before);
    assert names[i] in NameSet(names) && NameSet(names[..i]) <= NameSet(names);
    SubsetBound(NameSet(before) + {names[i]}, NameSet(names0) + NameSet(names));
  }

  lemma UsedAppend(ps: seq<Policy>, x: Policy)
    ensures forall id :: Used(ps + [x], id) <==> Used(ps, id) || id == x.id
  {
    forall id
      ensures Used(ps + [x], id) <==> Used(ps, id) || id == x.id
    {
      if Used(ps, id) {
        var i :| 0 <= i < |ps| && ps[i].id == id;
        assert (ps + [x])[i].id == id;
      }
      if id == x.id {
        assert (ps + [x])[|ps|].id == id;
      }
    }
  }
}
