/** Configuration records (inc/config.h) and policy selection (src/db/config.c). */
module Policy {
  import opened Bytes
  import opened PacketCrypto

  const Bypass := 0
  const EncryptL2 := 2
  const EncryptL3 := 3
  const EncryptL4 := 4
  const ProtoAny: byte := 0

  const MaxInterfaces := 16
  const MaxProfiles := 32
  const MaxProfileInterfaces := 16
  const MaxPolicies := 128

  /**
   * struct crypto_policy. same_crypto_policy compares every field, so it is equality here; the
   * C flags are integers that count as set when non-zero.
   */
  datatype Policy = Policy(id: int, dbId: int, priority: int, action: int, protocol: byte,
                           srcPortFrom: int, srcPortTo: int, dstPortFrom: int, dstPortTo: int,
                           srcAny: int, dstAny: int, srcNegate: int, dstNegate: int,
                           srcNet: bv32, srcMask: bv32, dstNet: bv32, dstMask: bv32,
                           cryptoMode: int, aesBits: int, nonceSize: int, key: Key)

  datatype Local = Local(ifname: string, ip: bv32, netmask: bv32, network: bv32,
                         umemMb: u32, ringSize: u32, batchSize: u32, frameSize: u32)

  datatype Wan = Wan(ifname: string, dstIp: bv32, windowSize: u32,
                     umemMb: u32, ringSize: u32, batchSize: u32, frameSize: u32)

  datatype Profile = Profile(id: int, name: string, enabled: int, locals: seq<int>,
                             wans: seq<(int, int)>, policies: seq<int>)

  /** struct app_config; each array with its count is a sequence. */
  datatype Config = Config(locals: seq<Local>, wans: seq<Wan>, profiles: seq<Profile>, policies: seq<Policy>,
                           cryptoEnabled: int, encryptLayer: int, fakeEthertype: u16, fakeProtocol: byte,
                           cryptoMode: int, nonceSize: int, aesBits: int)

  datatype Flow = Flow(srcIp: bv32, dstIp: bv32, srcPort: u16, dstPort: u16, protocol: byte) {
    function Reverse(): Flow { Flow(dstIp, srcIp, dstPort, srcPort, protocol) }
  }

  /** cidr_match_with_negate. */
  predicate CidrMatches(any: int, negate: int, ip: bv32, net: bv32, mask: bv32) {
    any != 0 || ((ip & mask == net & mask) != (negate != 0))
  }

  predicate PortMatches(from: int, to: int, port: u16) {
    from >= 0 && to >= 0 ==> from <= port <= to
  }

  /** crypto_policy_match_packet. */
  predicate Matches(cp: Policy, f: Flow) {
    && CidrMatches(cp.srcAny, cp.srcNegate, f.srcIp, cp.srcNet, cp.srcMask)
    && CidrMatches(cp.dstAny, cp.dstNegate, f.dstIp, cp.dstNet, cp.dstMask)
    && PortMatches(cp.srcPortFrom, cp.srcPortTo, f.srcPort)
    && PortMatches(cp.dstPortFrom, cp.dstPortTo, f.dstPort)
    && (cp.protocol == ProtoAny || cp.protocol == f.protocol)
  }

  // ---- what a match and a selection mean ----

  /** One end of a flow fits: any address, one in the net, or with negation one outside; any port or one in range. */
  predicate EndFits(any: int, negate: int, net: bv32, mask: bv32, from: int, to: int, ip: bv32, port: u16) {
    && (any != 0 || (if negate != 0 then ip & mask != net & mask else ip & mask == net & mask))
    && (from < 0 || to < 0 || (from <= port && port <= to))
  }

  /** A policy fits a flow at both ends and by protocol, where 0 stands for any. */
  predicate Fits(cp: Policy, f: Flow) {
    && EndFits(cp.srcAny, cp.srcNegate, cp.srcNet, cp.srcMask, cp.srcPortFrom, cp.srcPortTo, f.srcIp, f.srcPort)
    && EndFits(cp.dstAny, cp.dstNegate, cp.dstNet, cp.dstMask, cp.dstPortFrom, cp.dstPortTo, f.dstIp, f.dstPort)
    && (cp.protocol == 0 || cp.protocol == f.protocol)
  }

  lemma MatchesExactly(cp: Policy, f: Flow)
    ensures Matches(cp, f) <==> Fits(cp, f)
  {
  }

  /** Any drops the address of its end. */
  lemma AnyDropsAddress(cp: Policy, f: Flow, ip: bv32)
    ensures cp.srcAny != 0 ==> (Matches(cp, f.(srcIp := ip)) <==> Matches(cp, f))
    ensures cp.dstAny != 0 ==> (Matches(cp, f.(dstIp := ip)) <==> Matches(cp, f))
  {
    hide PortMatches;
  }

  /** Negation turns the address test round: what matches with any matches with exactly one of the two. */
  lemma NegationTurns(cp: Policy, f: Flow)
    requires cp.srcAny == cp.dstAny == 0
    ensures Matches(cp.(srcAny := 1), f) <==>
              Matches(cp.(srcNegate := 0), f) || Matches(cp.(srcNegate := 1), f)
    ensures !(Matches(cp.(srcNegate := 0), f) && Matches(cp.(srcNegate := 1), f))
    ensures Matches(cp.(dstAny := 1), f) <==>
              Matches(cp.(dstNegate := 0), f) || Matches(cp.(dstNegate := 1), f)
    ensures !(Matches(cp.(dstNegate := 0), f) && Matches(cp.(dstNegate := 1), f))
  {
    hide PortMatches;
  }

  /** A port range binds exactly if both its ends are set. */
  lemma PortsBind(cp: Policy, f: Flow)
    ensures Matches(cp, f) <==>
              && Matches(cp.(srcPortFrom := -1, dstPortTo := -1), f)
              && (0 <= cp.srcPortFrom && 0 <= cp.srcPortTo ==> cp.srcPortFrom <= f.srcPort <= cp.srcPortTo)
              && (0 <= cp.dstPortFrom && 0 <= cp.dstPortTo ==> cp.dstPortFrom <= f.dstPort <= cp.dstPortTo)
  {
    hide CidrMatches;
  }

  /** Position i names a policy that fits the flow one way round or the other; for one protocol, or for any. */
  predicate Listed(policies: seq<Policy>, indices: seq<int>, i: nat, f: Flow, specific: bool) {
    && i < |indices| && 0 <= indices[i] < |policies|
    && (policies[indices[i]].protocol != 0 <==> specific)
    && (Fits(policies[indices[i]], f)
        || Fits(policies[indices[i]], Flow(f.dstIp, f.srcIp, f.dstPort, f.srcPort, f.protocol)))
  }

  predicate FirstListed(policies: seq<Policy>, indices: seq<int>, i: nat, f: Flow, specific: bool) {
    Listed(policies, indices, i, f, specific) && forall k :: 0 <= k < i ==> !Listed(policies, indices, k, f, specific)
  }

  /** r is the first listed policy for the flow's own protocol, without one the first for any, else None. */
  ghost predicate BestListed(policies: seq<Policy>, indices: seq<int>, f: Flow, r: Option<nat>) {
    if exists i: nat :: Listed(policies, indices, i, f, true)
    then exists i: nat :: FirstListed(policies, indices, i, f, true) && r == Some(indices[i])
    else if exists i: nat :: Listed(policies, indices, i, f, false)
    then exists i: nat :: FirstListed(policies, indices, i, f, false) && r == Some(indices[i])
    else r == None
  }

  /** Pass 0 looks at policies for one protocol, pass 1 at those for any; a policy matches either way round. */
  predicate Applies(cp: Policy, pass: nat, f: Flow) {
    (cp.protocol == ProtoAny) == (pass == 1) && (Matches(cp, f) || Matches(cp, f.Reverse()))
  }

  /** Position i of a profile's policy list names a policy that applies in this pass. */
  predicate Candidate(policies: seq<Policy>, indices: seq<int>, pass: nat, i: nat, f: Flow) {
    i < |indices| && 0 <= indices[i] < |policies| && Applies(policies[indices[i]], pass, f)
  }

  /** The first candidate of a pass from position i on. */
  function FirstFrom(policies: seq<Policy>, indices: seq<int>, pass: nat, i: nat, f: Flow): (r: Option<nat>)
    ensures r.Some? ==> i <= r.value && Candidate(policies, indices, pass, r.value, f)
    ensures forall k :: i <= k < (if r.Some? then r.value else |indices|) ==> !Candidate(policies, indices, pass, k, f)
    decreases |indices| - i
  {
    if i >= |indices| then None
    else if Candidate(policies, indices, pass, i, f) then Some(i)
    else FirstFrom(policies, indices, pass, i + 1, f)
  }

  /** The index of the policy config_select_crypto_policy picks for a profile's policy list. */
  function Select(policies: seq<Policy>, indices: seq<int>, f: Flow): (r: Option<nat>)
    ensures r.Some? ==> r.value < |policies|
  {
    var specific := FirstFrom(policies, indices, 0, 0, f);
    if specific.Some? then Some(indices[specific.value])
    else
      var any := FirstFrom(policies, indices, 1, 0, f);
      if any.Some? then Some(indices[any.value]) else None
  }

  function SelectPolicy(cfg: Config, profile: int, f: Flow): (r: Option<nat>)
    ensures r.Some? ==> r.value < |cfg.policies|
  {
    if 0 <= profile < |cfg.profiles| then Select(cfg.policies, cfg.profiles[profile].policies, f) else None
  }

  lemma CandidateExactly(policies: seq<Policy>, indices: seq<int>, pass: nat, i: nat, f: Flow, specific: bool)
    requires pass < 2 && specific == (pass == 0)
    ensures Candidate(policies, indices, pass, i, f) <==> Listed(policies, indices, i, f, specific)
    ensures Candidate(policies, indices, pass, i, f) ==> i < |indices|
  {
    hide Matches;
    hide Fits;
    if i < |indices| && 0 <= indices[i] < |policies| {
      MatchesExactly(policies[indices[i]], f);
      MatchesExactly(policies[indices[i]], f.Reverse());
    }
  }

  lemma FirstFromExactly(policies: seq<Policy>, indices: seq<int>, f: Flow, pass: nat, specific: bool)
    requires pass < 2 && specific == (pass == 0)
    ensures var r := FirstFrom(policies, indices, pass, 0, f);
            && (r.Some? <==> exists i: nat :: Listed(policies, indices, i, f, specific))
            && (r.Some? ==> FirstListed(policies, indices, r.value, f, specific))
  {
    hide Candidate;
    hide Listed;
    forall i: nat
      ensures Candidate(policies, indices, pass, i, f) <==> Listed(policies, indices, i, f, specific)
      ensures Candidate(policies, indices, pass, i, f) ==> i < |indices|
    {
      CandidateExactly(policies, indices, pass, i, f, specific);
    }
  }

  /** The selection is the first specific match, and without one the first match for any protocol. */
  lemma SelectIsBest(policies: seq<Policy>, indices: seq<int>, f: Flow)
    ensures BestListed(policies, indices, f, Select(policies, indices, f))
  {
    hide FirstFrom;
    hide FirstListed;
    hide Listed;
    FirstFromExactly(policies, indices, f, 0, true);
    FirstFromExactly(policies, indices, f, 1, false);
  }

  /** config_select_crypto_policy: both passes over the profile's list. */
  method SelectCryptoPolicy(cfg: Config, profile: int, f: Flow) returns (r: Option<nat>)
    ensures r == SelectPolicy(cfg, profile, f)
    ensures if 0 <= profile < |cfg.profiles| then BestListed(cfg.policies, cfg.profiles[profile].policies, f, r)
            else r == None
  {
    hide BestListed;
    if 0 <= profile < |cfg.profiles| {
      SelectIsBest(cfg.policies, cfg.profiles[profile].policies, f);
    }
    if profile < 0 || profile >= |cfg.profiles| {
      return None;
    }
    var indices := cfg.profiles[profile].policies;
    var pass := 0;
    while pass < 2
      invariant 0 <= pass <= 2
      invariant forall q :: 0 <= q < pass ==> FirstFrom(cfg.policies, indices, q, 0, f) == None
    {
      var i := 0;
      while i < |indices|
        invariant 0 <= i <= |indices|
        invariant FirstFrom(cfg.policies, indices, pass, 0, f) == FirstFrom(cfg.policies, indices, pass, i, f)
      {
        var pi := indices[i];
        if 0 <= pi < |cfg.policies| {
          var cp := cfg.policies[pi];
          if (cp.protocol == ProtoAny) == (pass == 1) {
            var matched := Matches(cp, f);
            if !matched {
              matched := Matches(cp, f.Reverse());
            }
            if matched {
              assert FirstFrom(cfg.policies, indices, pass, i, f) == Some(i);
              return Some(pi);
            }
          }
        }
        i := i + 1;
      }
      pass := pass + 1;
    }
    r := None;
  }

  lemma {:induction false} FirstFromReverse(policies: seq<Policy>, indices: seq<int>, pass: nat, i: nat, f: Flow)
    ensures FirstFrom(policies, indices, pass, i, f.Reverse()) == FirstFrom(policies, indices, pass, i, f)
    decreases |indices| - i
  {
    if i < |indices| {
      assert f.Reverse().Reverse() == f;
      FirstFromReverse(policies, indices, pass, i + 1, f);
    }
  }

  /** Selection does not depend on the direction of the flow. */
  lemma SelectReverse(cfg: Config, profile: int, f: Flow)
    ensures SelectPolicy(cfg, profile, f.Reverse()) == SelectPolicy(cfg, profile, f)
  {
    if 0 <= profile < |cfg.profiles| {
      FirstFromReverse(cfg.policies, cfg.profiles[profile].policies, 0, 0, f);
      FirstFromReverse(cfg.policies, cfg.profiles[profile].policies, 1, 0, f);
    }
  }

  // ---- the profile of a local interface ----

  /** Profile k is enabled and lists local interface idx. */
  predicate Serves(profiles: seq<Profile>, k: nat, idx: int) {
    k < |profiles| && profiles[k].enabled != 0 && idx in profiles[k].locals
  }

  /** The first profile from k on that serves idx. */
  function FirstServing(profiles: seq<Profile>, idx: int, k: nat): (r: Option<nat>)
    ensures r.Some? ==> k <= r.value && Serves(profiles, r.value, idx)
    ensures forall j :: k <= j < (if r.Some? then r.value else |profiles|) ==> !Serves(profiles, j, idx)
    decreases |profiles| - k
  {
    if k >= |profiles| then None
    else if Serves(profiles, k, idx) then Some(k)
    else FirstServing(profiles, idx, k + 1)
  }

  function ProfileOfLocal(cfg: Config, idx: int): (r: Option<nat>)
    ensures r.Some? ==> r.value < |cfg.profiles|
  {
    if 0 <= idx < |cfg.locals| then FirstServing(cfg.profiles, idx, 0) else None
  }

  /** config_select_profile_for_local. */
  method SelectProfileForLocal(cfg: Config, idx: int) returns (r: Option<nat>)
    ensures r == ProfileOfLocal(cfg, idx)
    ensures r.Some? ==>
      && 0 <= idx < |cfg.locals| && r.value < |cfg.profiles|
      && cfg.profiles[r.value].enabled != 0 && idx in cfg.profiles[r.value].locals
    ensures 0 <= idx < |cfg.locals| ==>
      forall k :: 0 <= k < (if r.Some? then r.value else |cfg.profiles|) ==>
        !(cfg.profiles[k].enabled != 0 && idx in cfg.profiles[k].locals)
  {
    if idx < 0 || idx >= |cfg.locals| {
      return None;
    }
    var k := 0;
    while k < |cfg.profiles|
      invariant 0 <= k <= |cfg.profiles|
      invariant FirstServing(cfg.profiles, idx, 0) == FirstServing(cfg.profiles, idx, k)
      invariant forall j :: 0 <= j < k ==> !(cfg.profiles[j].enabled != 0 && idx in cfg.profiles[j].locals)
    {
      if cfg.profiles[k].enabled != 0 {
        var served := cfg.profiles[k].locals;
        var i := 0;
        while i < |served|
          invariant 0 <= i <= |served| && idx !in served[..i]
        {
          if served[i] == idx {
            return Some(k);
          }
          i := i + 1;
        }
        assert served[..i] == served;
      }
      k := k + 1;
    }
    r := None;
  }

  /** The index of the policy for a flow that comes in on a local interface. */
  function PolicyForLocal(cfg: Config, idx: int, f: Flow): (r: Option<nat>)
    ensures r.Some? ==> r.value < |cfg.policies|
  {
    match ProfileOfLocal(cfg, idx)
    case None => None
    case Some(k) => SelectPolicy(cfg, k, f)
  }

  /** crypto_select_policy_for_local. */
  method SelectPolicyForLocal(cfg: Config, idx: int, f: Flow) returns (r: Option<nat>)
    ensures r == PolicyForLocal(cfg, idx, f)
    ensures ProfileOfLocal(cfg, idx).Some? ==>
      BestListed(cfg.policies, cfg.profiles[ProfileOfLocal(cfg, idx).value].policies, f, r)
    ensures ProfileOfLocal(cfg, idx).None? ==> r == None
  {
    hide BestListed;
    var k := SelectProfileForLocal(cfg, idx);
    if k.None? {
      return None;
    }
    r := SelectCryptoPolicy(cfg, k.value, f);
  }

  // ---- config_validate ----

  const Mebi := 1024 * 1024
  const DefaultFrameSize := 4096
  const DefaultBatchSize := 64

  /** The UMEM test of config_validate, in 32-bit arithmetic. */
  predicate UmemAccepted(umemMb: u32, ringSize: u32, frameSize: u32) {
    umemMb != 0 && ringSize != 0 && umemMb >= ringSize * 2 * frameSize % 0x1_0000_0000 / Mebi
  }

  predicate LocalAccepted(l: Local) {
    l.ifname != "" && UmemAccepted(l.umemMb, l.ringSize, l.frameSize)
  }

  predicate WanAccepted(w: Wan) {
    w.ifname != "" && w.windowSize != 0 && UmemAccepted(w.umemMb, w.ringSize, w.frameSize)
  }

  /** Sizes that are set, with at least as many whole MiB as two rings of frames take modulo 2^32. */
  predicate SizesAccepted(umemMb: u32, ringSize: u32, frameSize: u32) {
    umemMb > 0 && ringSize > 0 && (2 * frameSize * ringSize) % 0x1_0000_0000 < 1_048_576 * (umemMb as int + 1)
  }

  lemma SizesExactly(umemMb: u32, ringSize: u32, frameSize: u32)
    ensures UmemAccepted(umemMb, ringSize, frameSize) <==> SizesAccepted(umemMb, ringSize, frameSize)
  {
    var need := ringSize * 2 * frameSize;
    Commute(ringSize, frameSize);
    WholeMebi(need % 0x1_0000_0000, umemMb);
  }

  lemma Commute(x: nat, y: nat)
    ensures x * 2 * y == 2 * y * x
  {
  }

  lemma WholeMebi(need: nat, mb: nat)
    ensures mb >= need / Mebi <==> need < 1_048_576 * (mb + 1)
  {
  }

  lemma LocalAcceptedExactly(l: Local)
    ensures LocalAccepted(l) <==> l.ifname != "" && SizesAccepted(l.umemMb, l.ringSize, l.frameSize)
  {
    hide SizesAccepted;
    hide UmemAccepted;
    SizesExactly(l.umemMb, l.ringSize, l.frameSize);
  }

  lemma WanAcceptedExactly(w: Wan)
    ensures WanAccepted(w) <==> w.ifname != "" && w.windowSize > 0 && SizesAccepted(w.umemMb, w.ringSize, w.frameSize)
  {
    hide SizesAccepted;
    hide UmemAccepted;
    SizesExactly(w.umemMb, w.ringSize, w.frameSize);
  }

  /** config_validate; the global sizes are those of the whole configuration. */
  method Validate(cfg: Config, globalFrameSize: u32, globalBatchSize: u32) returns (ok: bool)
    ensures ok <==> globalFrameSize != 0 && globalBatchSize != 0
                    && (forall i :: 0 <= i < |cfg.locals| ==> LocalAccepted(cfg.locals[i]))
                    && (forall i :: 0 <= i < |cfg.wans| ==> WanAccepted(cfg.wans[i]))
    ensures ok ==>
      && (forall i :: 0 <= i < |cfg.locals| ==>
            && cfg.locals[i].ifname != ""
            && SizesAccepted(cfg.locals[i].umemMb, cfg.locals[i].ringSize, cfg.locals[i].frameSize))
      && (forall i :: 0 <= i < |cfg.wans| ==>
            && cfg.wans[i].ifname != "" && cfg.wans[i].windowSize > 0
            && SizesAccepted(cfg.wans[i].umemMb, cfg.wans[i].ringSize, cfg.wans[i].frameSize))
    ensures !ok && globalFrameSize > 0 && globalBatchSize > 0 ==>
      || (exists i :: 0 <= i < |cfg.locals|
            && !(cfg.locals[i].ifname != ""
                 && SizesAccepted(cfg.locals[i].umemMb, cfg.locals[i].ringSize, cfg.locals[i].frameSize)))
      || (exists i :: 0 <= i < |cfg.wans|
            && !(cfg.wans[i].ifname != "" && cfg.wans[i].windowSize > 0
                 && SizesAccepted(cfg.wans[i].umemMb, cfg.wans[i].ringSize, cfg.wans[i].frameSize)))
  {
    hide LocalAccepted;
    hide WanAccepted;
    hide SizesAccepted;
    forall i | 0 <= i < |cfg.locals|
      ensures LocalAccepted(cfg.locals[i]) <==>
                && cfg.locals[i].ifname != ""
                && SizesAccepted(cfg.locals[i].umemMb, cfg.locals[i].ringSize, cfg.locals[i].frameSize)
    {
      LocalAcceptedExactly(cfg.locals[i]);
    }
    forall i | 0 <= i < |cfg.wans|
      ensures WanAccepted(cfg.wans[i]) <==>
                && cfg.wans[i].ifname != "" && cfg.wans[i].windowSize > 0
                && SizesAccepted(cfg.wans[i].umemMb, cfg.wans[i].ringSize, cfg.wans[i].frameSize)
    {
      WanAcceptedExactly(cfg.wans[i]);
    }
    if globalFrameSize == 0 || globalBatchSize == 0 {
      return false;
    }
    var i := 0;
    while i < |cfg.locals|
      invariant 0 <= i <= |cfg.locals|
      invariant forall k :: 0 <= k < i ==> LocalAccepted(cfg.locals[k])
    {
      if !LocalAccepted(cfg.locals[i]) {
        return false;
      }
      i := i + 1;
    }
    i := 0;
    while i < |cfg.wans|
      invariant 0 <= i <= |cfg.wans|
      invariant forall k :: 0 <= k < i ==> WanAccepted(cfg.wans[k])
    {
      if !WanAccepted(cfg.wans[i]) {
        return false;
      }
      i := i + 1;
    }
    ok := true;
  }
}
