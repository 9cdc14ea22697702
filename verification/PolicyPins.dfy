/**
 * Pinning TCP flows to policies across configuration reloads (tcp_policy_pin_* and
 * forwarder_reload_config in src/core/forwarder.c).
 */
module PolicyPins {
  import opened Bytes
  import opened ConfigMerge
  import opened CryptoRuntime
  import FlowTable
  import opened HashTable
  import opened Policy

  const PinTimeoutSec := 120

  // ---- keys ----

  datatype Key = Key(srcIp: u32, dstIp: u32, srcPort: u16, dstPort: u16)

  datatype Pin = Pin(policy: int, lastSeen: u64)

  /** tcp_policy_pin_normalize_tuple. */
  function NormalKey(srcIp: u32, dstIp: u32, srcPort: u16, dstPort: u16): Key {
    if FlowTable.After(srcIp, dstIp) || (srcIp == dstIp && srcPort > dstPort)
    then Key(dstIp, srcIp, dstPort, srcPort) else Key(srcIp, dstIp, srcPort, dstPort)
  }

  /** Two tuples share a pin exactly when they are the same flow up to direction. */
  lemma NormalKeyIsUndirected(a: Key, b: Key)
    ensures NormalKey(a.srcIp, a.dstIp, a.srcPort, a.dstPort) == NormalKey(b.srcIp, b.dstIp, b.srcPort, b.dstPort)
            <==> a == b || a == Key(b.dstIp, b.srcIp, b.dstPort, b.srcPort)
  {
    hide FlowTable.After;
    FlowTable.AfterIsTotal(a.srcIp, a.dstIp);
    FlowTable.AfterIsTotal(b.srcIp, b.dstIp);
  }

  /** tcp_policy_pin_hash before its final modulus. */
  function PinHash(k: Key): nat {
    var h0 := k.srcIp as bv32 ^ k.dstIp as bv32 ^ ((k.srcPort as bv32 << 16) | k.dstPort as bv32) ^ 6;
    var h1 := h0 ^ (h0 >> 16);
    var h2 := h1 * 0x85ebca6b;
    var h3 := h2 ^ (h2 >> 13);
    var h4 := h3 * 0xc2b2ae35;
    (h4 ^ (h4 >> 16)) as nat
  }

  // ---- what a reload compares ----

  predicate SameTopology(a: Config, b: Config) {
    LocalNames(a.locals) == LocalNames(b.locals) && WanNames(a.wans) == WanNames(b.wans)
  }

  /** Equal in everything crypto_runtime_changed looks at. */
  predicate SameCrypto(a: Config, b: Config) {
    && a.cryptoEnabled == b.cryptoEnabled && a.encryptLayer == b.encryptLayer && a.cryptoMode == b.cryptoMode
    && a.aesBits == b.aesBits && a.nonceSize == b.nonceSize && a.fakeEthertype == b.fakeEthertype
    && a.fakeProtocol == b.fakeProtocol && a.policies == b.policies
  }

  predicate SameForwarding(a: Config, b: Config) {
    |a.profiles| == |b.profiles| && |a.wans| == |b.wans| && |a.locals| == |b.locals|
  }

  /** As many interfaces, and each of the same name, on either side. */
  predicate SameNamesInOrder(a: Config, b: Config) {
    && |a.locals| == |b.locals| && |a.wans| == |b.wans|
    && (forall i :: 0 <= i < |a.locals| ==> a.locals[i].ifname == b.locals[i].ifname)
    && (forall i :: 0 <= i < |a.wans| ==> a.wans[i].ifname == b.wans[i].ifname)
  }

  lemma TopologyIsNames(a: Config, b: Config)
    ensures SameTopology(a, b) <==> SameNamesInOrder(a, b)
  {
    if SameTopology(a, b) {
      forall i | 0 <= i < |a.locals|
        ensures a.locals[i].ifname == b.locals[i].ifname
      {
        assert LocalNames(a.locals)[i] == LocalNames(b.locals)[i];
      }
      forall i | 0 <= i < |a.wans|
        ensures a.wans[i].ifname == b.wans[i].ifname
      {
        assert WanNames(a.wans)[i] == WanNames(b.wans)[i];
      }
    }
  }

  /** A configuration without its interfaces and profiles: everything that encryption depends on. */
  function CryptoPart(c: Config): Config {
    c.(locals := [], wans := [], profiles := [])
  }

  /** No field or policy is overlooked. */
  lemma CryptoIsAllElse(a: Config, b: Config)
    ensures SameCrypto(a, b) <==> CryptoPart(a) == CryptoPart(b)
    ensures SameCrypto(a, b) ==> a.cryptoEnabled == b.cryptoEnabled
  {
  }

  /** crypto_runtime_changed: field by field and policy by policy. */
  method CryptoRuntimeChanged(a: Config, b: Config) returns (changed: bool)
    requires |a.policies| <= MaxPolicies
    ensures changed <==> !SameCrypto(a, b)
  {
    if a.cryptoEnabled != b.cryptoEnabled || a.encryptLayer != b.encryptLayer || a.cryptoMode != b.cryptoMode
       || a.aesBits != b.aesBits || a.nonceSize != b.nonceSize || a.fakeEthertype != b.fakeEthertype
       || a.fakeProtocol != b.fakeProtocol || |a.policies| != |b.policies| {
      return true;
    }
    var i := 0;
    while i < |a.policies| && i < MaxPolicies
      invariant 0 <= i <= |a.policies|
      invariant forall k :: 0 <= k < i ==> a.policies[k] == b.policies[k]
    {
      if a.policies[i] != b.policies[i] {
        return true;
      }
      i := i + 1;
    }
    changed := false;
  }

  /** same_topology: as many interfaces, with the same names in the same order. */
  method CompareTopology(a: Config, b: Config) returns (same: bool)
    ensures same <==> SameTopology(a, b)
  {
    if |a.locals| != |b.locals| || |a.wans| != |b.wans| {
      return false;
    }
    same := SameNames(LocalNames(a.locals), LocalNames(b.locals));
    if same {
      same := SameNames(WanNames(a.wans), WanNames(b.wans));
    }
  }

  method SameNames(a: seq<string>, b: seq<string>) returns (same: bool)
    requires |a| == |b|
    ensures same <==> a == b
  {
    var i := 0;
    while i < |a|
      invariant 0 <= i <= |a|
      invariant forall k :: 0 <= k < i ==> a[k] == b[k]
    {
      if a[i] != b[i] {
        return false;
      }
      i := i + 1;
    }
    same := true;
  }

  // ---- the protocol on values ----

  /** The configuration in force, the policies contexts were last built for, and the pins. */
  datatype World = World(cfg: Config, enabled: int, active: seq<Policy>, pins: map<Key, Pin>)

  datatype Op =
    | Set(k: Key, policy: int, now: u64)
    | Remove(k: Key)
    | Gc(now: u64)
    | Lookup(k: Key, now: u64)
    | Reload(cfg: Config)

  predicate Stale(now: u64, p: Pin) {
    (now - p.lastSeen) % 0x1_0000_0000_0000_0000 > PinTimeoutSec
  }

  /** At most 120 seconds from stamp to now, on a clock of 64 bits. */
  predicate Recent(stamp: u64, now: u64) {
    if stamp <= now then now - stamp <= 120 else now + 0x1_0000_0000_0000_0000 - stamp <= 120
  }

  lemma StaleExactly(now: u64, p: Pin)
    ensures Stale(now, p) <==> !Recent(p.lastSeen, now)
  {
  }

  predicate Ready(active: seq<Policy>, i: int) {
    0 <= i < |active| && Encrypts(active[i])
  }

  /** The policy a pin leads to, if it can still be used. */
  function Pinned(w: World, k: Key): Option<Policy> {
    if k !in w.pins then None
    else
      var i := w.pins[k].policy;
      if 0 <= i < |w.cfg.policies| && i < MaxPolicies && (w.cfg.policies[i].action == Bypass || Ready(w.active, i))
      then Some(w.cfg.policies[i]) else None
  }

  /** What a lookup returns. */
  function Answer(w: World, op: Op): Option<Policy>
    requires op.Lookup?
  {
    if w.enabled == 0 then None else Pinned(w, op.k)
  }

  /** Whether a set takes effect. */
  predicate Sets(w: World, op: Op, k: Key) {
    op.Set? && op.k == k && w.enabled != 0 && 0 <= op.policy < MaxPolicies
  }

  ghost function Apply(w: World, op: Op): World {
    match op
    case Set(k, policy, now) => if Sets(w, op, k) then w.(pins := w.pins[k := Pin(policy, now)]) else w
    case Remove(k) => if w.enabled != 0 then w.(pins := w.pins - {k}) else w
    case Gc(now) =>
      if w.enabled != 0 && now != 0
      then w.(pins := map k | k in w.pins && !Stale(now, w.pins[k]) :: w.pins[k]) else w
    case Lookup(k, now) =>
      if w.enabled == 0 || k !in w.pins then w
      else if Pinned(w, k).Some? then w.(pins := w.pins[k := w.pins[k].(lastSeen := now)])
      else w.(pins := w.pins - {k})
    case Reload(cfg) =>
      if !SameTopology(w.cfg, cfg) then w
      else if SameCrypto(w.cfg, cfg) && SameForwarding(w.cfg, cfg) then w.(cfg := cfg)
      else if cfg.cryptoEnabled != 0 && !SameCrypto(w.cfg, cfg) then World(cfg, cfg.cryptoEnabled, cfg.policies, map[])
      else w.(cfg := cfg, enabled := cfg.cryptoEnabled)
  }

  ghost function Run(w: World, ops: seq<Op>): World {
    if ops == [] then w else Apply(Run(w, ops[..|ops| - 1]), ops[|ops| - 1])
  }

  /** The policy number i names now. */
  function PolicyAt(cfg: Config, i: int): Option<Policy> {
    if 0 <= i < |cfg.policies| then Some(cfg.policies[i]) else None
  }

  /** The policy that k was last pinned to: the one its last effective set named at that time. */
  ghost function LastPinned(w: World, ops: seq<Op>, k: Key): Option<Policy> {
    if ops == [] then None
    else
      var rest, op := ops[..|ops| - 1], ops[|ops| - 1];
      if Sets(Run(w, rest), op, k) then PolicyAt(Run(w, rest).cfg, op.policy) else LastPinned(w, rest, k)
  }

  /** Started with a configuration: contexts are built if it encrypts, and nothing is pinned. */
  function Started(cfg: Config): World {
    World(cfg, cfg.cryptoEnabled, if cfg.cryptoEnabled != 0 then cfg.policies else [], map[])
  }

  /** While pins can be used at all, each leads to the policy it was made for. */
  ghost predicate PinsTrue(w: World, w0: World, ops: seq<Op>) {
    && w.enabled == w.cfg.cryptoEnabled
    && (w.enabled != 0 ==>
          && w.active == w.cfg.policies
          && forall k :: k in w.pins ==> PolicyAt(w.cfg, w.pins[k].policy) == LastPinned(w0, ops, k))
  }

  lemma {:induction false} RunKeepsPinsTrue(cfg: Config, ops: seq<Op>)
    ensures PinsTrue(Run(Started(cfg), ops), Started(cfg), ops)
  {
    hide Encrypts;
    hide SameTopology;
    hide SameForwarding;
    if ops != [] {
      RunKeepsPinsTrue(cfg, ops[..|ops| - 1]);
    }
  }

  /**
   * Over any run of sets, removes, sweeps, lookups and reloads, including ones that switch
   * encryption off and on again, a successful lookup returns exactly the policy the flow was last
   * pinned to, and that policy has a context unless it bypasses encryption.
   */
  lemma LookupReturnsLastPinned(cfg: Config, ops: seq<Op>, k: Key, now: u64)
    ensures var w := Run(Started(cfg), ops);
            var r := Answer(w, Op.Lookup(k, now));
            r.Some? ==> r == LastPinned(Started(cfg), ops, k) && (r.value.action == Bypass || Encrypts(r.value))
  {
    RunKeepsPinsTrue(cfg, ops);
    hide Encrypts;
  }

  /** Leaves pin k and the policies it leads to alone. */
  predicate Harmless(w: World, op: Op, k: Key)
    requires k in w.pins
  {
    match op
    case Set(k', _, _) => k' != k
    case Remove(k') => k' != k
    case Lookup(k', _) => k' != k
    case Gc(now) => !Stale(now, w.pins[k])
    case Reload(cfg) => !SameTopology(w.cfg, cfg) || SameCrypto(w.cfg, cfg)
  }

  /** A pin is not dropped without cause: it outlives everything done to other flows. */
  lemma {:induction false} PinSurvives(w: World, ops: seq<Op>, k: Key)
    requires w.enabled == w.cfg.cryptoEnabled && k in w.pins
    requires forall i :: 0 <= i < |ops| ==> Harmless(w, ops[i], k)
    ensures var w' := Run(w, ops);
            && k in w'.pins && w'.pins[k] == w.pins[k] && Pinned(w', k) == Pinned(w, k)
            && w'.enabled == w.enabled
  {
    hide SameTopology;
    hide Encrypts;
    KeepsPolicies(w, ops, k);
  }

  lemma {:induction false} KeepsPolicies(w: World, ops: seq<Op>, k: Key)
    requires w.enabled == w.cfg.cryptoEnabled && k in w.pins
    requires forall i :: 0 <= i < |ops| ==> Harmless(w, ops[i], k)
    ensures var w' := Run(w, ops);
            && k in w'.pins && w'.pins[k] == w.pins[k] && w'.active == w.active && w'.enabled == w.enabled
            && SameCrypto(w.cfg, w'.cfg) && SameTopology(w.cfg, w'.cfg)
  {
    hide Encrypts;
    if ops != [] {
      var rest, op := ops[..|ops| - 1], ops[|ops| - 1];
      assert forall i :: 0 <= i < |rest| ==> rest[i] == ops[i];
      KeepsPolicies(w, rest, k);
      assert Harmless(w, op, k);
    }
  }

  // ---- when a pin is there ----

  /** The step pins k, or finds it usable, at time t. */
  ghost predicate Touches(w: World, op: Op, k: Key, t: u64) {
    match op
    case Set(k', policy, now) => k' == k && now == t && w.enabled != 0 && 0 <= policy < 128
    case Lookup(k', now) => k' == k && now == t && Answer(w, op).Some?
    case _ => false
  }

  /**
   * The step touches k anew, removes it, finds it unusable, sweeps when t is more than 120 seconds
   * past, or reloads policies or settings of encryption.
   */
  ghost predicate Ends(w: World, op: Op, k: Key, t: u64) {
    match op
    case Set(k', policy, _) => k' == k && w.enabled != 0 && 0 <= policy < 128
    case Remove(k') => k' == k && w.enabled != 0
    case Gc(now) => w.enabled != 0 && now != 0 && !Recent(t, now)
    case Lookup(k', _) => k' == k && w.enabled != 0
    case Reload(cfg) => SameNamesInOrder(w.cfg, cfg) && cfg.cryptoEnabled != 0 && CryptoPart(w.cfg) != CryptoPart(cfg)
  }

  /** Step i touched k at time t, and no later step has ended that. */
  ghost predicate TouchedSince(w0: World, ops: seq<Op>, k: Key, i: nat, t: u64) {
    && i < |ops| && Touches(Run(w0, ops[..i]), ops[i], k, t)
    && forall m :: i < m < |ops| ==> !Ends(Run(w0, ops[..m]), ops[m], k, t)
  }

  predicate Seen(w: World, k: Key, t: u64) {
    k in w.pins && w.pins[k].lastSeen == t
  }

  lemma SeenStep(w: World, op: Op, k: Key, t: u64)
    ensures Seen(Apply(w, op), k, t) <==> Touches(w, op, k, t) || (Seen(w, k, t) && !Ends(w, op, k, t))
  {
    hide Encrypts;
    hide SameTopology;
    hide SameNamesInOrder;
    hide SameCrypto;
    hide CryptoPart;
    hide Stale;
    hide Recent;
    if op.Gc? && k in w.pins {
      StaleExactly(op.now, w.pins[k]);
    }
    if op.Reload? {
      TopologyIsNames(w.cfg, op.cfg);
      CryptoIsAllElse(w.cfg, op.cfg);
    }
  }

  lemma TouchedStep(w0: World, ops: seq<Op>, k: Key, t: u64)
    requires ops != []
    ensures var rest, op := ops[..|ops| - 1], ops[|ops| - 1];
            (exists i: nat :: TouchedSince(w0, ops, k, i, t)) <==>
              || Touches(Run(w0, rest), op, k, t)
              || ((exists i: nat :: TouchedSince(w0, rest, k, i, t)) && !Ends(Run(w0, rest), op, k, t))
  {
    hide Touches;
    hide Ends;
    hide Run;
    var n := |ops| - 1;
    var rest, op := ops[..n], ops[n];
    assert forall m :: 0 <= m <= n ==> rest[..m] == ops[..m];
    if i: nat :| TouchedSince(w0, ops, k, i, t) {
      if i < n {
        assert TouchedSince(w0, rest, k, i, t);
      }
    }
    if Touches(Run(w0, rest), op, k, t) {
      assert TouchedSince(w0, ops, k, n, t);
    }
    if i: nat :| TouchedSince(w0, rest, k, i, t) && !Ends(Run(w0, rest), op, k, t) {
      assert TouchedSince(w0, ops, k, i, t);
    }
  }

  /** Over any run a pin is there, last seen at t, if and only if some step touched it at t and none has ended that. */
  lemma {:induction false} PinnedExactly(cfg: Config, ops: seq<Op>, k: Key, t: u64)
    ensures Seen(Run(Started(cfg), ops), k, t) <==> exists i: nat :: TouchedSince(Started(cfg), ops, k, i, t)
  {
    hide Touches;
    hide Ends;
    hide Apply;
    hide Seen;
    if ops == [] {
      NothingSeen(cfg, k, t);
    } else {
      var rest, op := ops[..|ops| - 1], ops[|ops| - 1];
      PinnedExactly(cfg, rest, k, t);
      SeenStep(Run(Started(cfg), rest), op, k, t);
      TouchedStep(Started(cfg), ops, k, t);
    }
  }

  lemma NothingSeen(cfg: Config, k: Key, t: u64)
    ensures !Seen(Started(cfg), k, t)
  {
  }

  /**
   * A lookup over any run answers if and only if encryption is on, some step has touched the flow
   * without being ended since, and the policy it was last pinned to exists and bypasses or has a key.
   */
  lemma AnswersExactly(cfg: Config, ops: seq<Op>, k: Key, now: u64)
    requires |Run(Started(cfg), ops).cfg.policies| <= 128
    ensures var w := Run(Started(cfg), ops);
            var pinned := LastPinned(Started(cfg), ops, k);
            Answer(w, Op.Lookup(k, now)).Some? <==>
              && w.enabled != 0 && (exists i: nat, t :: TouchedSince(Started(cfg), ops, k, i, t))
              && pinned.Some? && (pinned.value.action == 0 || Usable(pinned.value))
  {
    hide TouchedSince;
    hide Run;
    hide Usable;
    hide Encrypts;
    var w := Run(Started(cfg), ops);
    RunKeepsPinsTrue(cfg, ops);
    if k in w.pins {
      PinnedExactly(cfg, ops, k, w.pins[k].lastSeen);
    }
    if i: nat, t :| TouchedSince(Started(cfg), ops, k, i, t) {
      PinnedExactly(cfg, ops, k, t);
    }
    var pinned := LastPinned(Started(cfg), ops, k);
    if pinned.Some? {
      UsableExactly(pinned.value);
    }
  }

  // ---- the protocol in place ----

  class Forwarder {
    var cfg: Config
    var enabled: int
    const rt: Runtime
    const pins: Table<Key, Pin>

    ghost predicate Valid()
      reads this, rt, rt.ctx, rt.ready, rt.index, pins, pins.repr
    {
      && pins.Valid() && pins.hash == PinHash && pins.buckets.Length == FlowTable.TableSize
      && this !in pins.repr && rt !in pins.repr && rt.ctx !in pins.repr && rt.ready !in pins.repr
         && rt.index !in pins.repr
      && |cfg.policies| <= MaxPolicies
      && rt.ready.Length == MaxPolicies && rt.Valid()
      && forall i :: 0 <= i < MaxPolicies && rt.ready[i] <==> Ready(rt.active, i)
    }

    /** The state as a value. */
    ghost function View(): World
      reads this, rt, pins
    {
      World(cfg, enabled, rt.active, pins.entries)
    }

    /** The crypto part of starting up: contexts only if the configuration encrypts, no pins. */
    constructor (cfg: Config, hmac: Hmac)
      requires |cfg.policies| <= MaxPolicies
      ensures Valid() && View() == Started(cfg)
      ensures fresh(rt) && fresh(rt.ctx) && fresh(rt.ready) && fresh(rt.index) && fresh(pins.repr)
    {
      hide PinHash;
      hide Table.Valid;
      hide Encrypts;
      hide Runtime.Keyed;
      hide Runtime.LeadsToFirst;
      this.cfg := cfg;
      enabled := cfg.cryptoEnabled;
      rt := new Runtime(hmac);
      pins := new Table<Key, Pin>(FlowTable.TableSize, PinHash);
      new;
      if cfg.cryptoEnabled != 0 {
        var _ := rt.Rebuild(cfg.policies);
      }
    }

    /** tcp_policy_pin_set. */
    method Set(srcIp: u32, dstIp: u32, srcPort: u16, dstPort: u16, policy: int, now: u64)
      requires Valid()
      modifies pins.repr
      ensures Valid() && fresh(pins.repr - old(pins.repr))
      ensures View() == Apply(old(View()), Op.Set(NormalKey(srcIp, dstIp, srcPort, dstPort), policy, now))
    {
      hide PinHash;
      hide Table.Valid;
      hide Runtime.Valid;
      hide Encrypts;
      hide SameTopology;
      hide NormalKey;
      if enabled == 0 || policy < 0 || policy >= MaxPolicies {
        return;
      }
      var k := NormalKey(srcIp, dstIp, srcPort, dstPort);
      var e := pins.Find(k);
      if e != null {
        pins.Store(e, Pin(policy, now));
      } else {
        pins.Insert(k, Pin(policy, now));
      }
    }

    /** tcp_policy_pin_remove. */
    method Remove(srcIp: u32, dstIp: u32, srcPort: u16, dstPort: u16)
      requires Valid()
      modifies pins.repr
      ensures Valid() && pins.repr == old(pins.repr)
      ensures View() == Apply(old(View()), Op.Remove(NormalKey(srcIp, dstIp, srcPort, dstPort)))
    {
      hide PinHash;
      hide Table.Valid;
      hide Runtime.Valid;
      hide Encrypts;
      hide SameTopology;
      hide NormalKey;
      if enabled == 0 {
        return;
      }
      pins.Remove(NormalKey(srcIp, dstIp, srcPort, dstPort));
    }

    /** tcp_policy_pin_gc. */
    method Gc(now: u64)
      requires Valid()
      modifies pins.repr
      ensures Valid() && pins.repr == old(pins.repr)
      ensures View() == Apply(old(View()), Op.Gc(now))
      ensures enabled != 0 && now != 0 ==>
        forall k :: k in old(pins.entries) ==>
          (k in pins.entries <==> Recent(old(pins.entries)[k].lastSeen, now))
    {
      hide PinHash;
      hide Table.Valid;
      hide Runtime.Valid;
      hide Encrypts;
      hide SameTopology;
      if enabled == 0 || now == 0 {
        return;
      }
      pins.RemoveIf(p => Stale(now, p));
    }

    /** tcp_policy_pin_lookup. */
    method Lookup(srcIp: u32, dstIp: u32, srcPort: u16, dstPort: u16, now: u64) returns (policy: Option<Policy>)
      requires Valid()
      modifies pins.repr
      ensures Valid() && pins.repr == old(pins.repr)
      ensures policy == Answer(old(View()), Op.Lookup(NormalKey(srcIp, dstIp, srcPort, dstPort), now))
      ensures View() == Apply(old(View()), Op.Lookup(NormalKey(srcIp, dstIp, srcPort, dstPort), now))
    {
      hide PinHash;
      hide Table.Valid;
      hide Runtime.Valid;
      hide Encrypts;
      hide SameTopology;
      hide NormalKey;
      policy := None;
      if enabled == 0 {
        return;
      }
      var k := NormalKey(srcIp, dstIp, srcPort, dstPort);
      var e := pins.Find(k);
      if e == null {
        return;
      }
      var i := e.val.policy;
      var ok := 0 <= i < |cfg.policies| && i < MaxPolicies;
      if ok && cfg.policies[i].action != Bypass && !rt.ready[i] {
        ok := false;
      }
      if ok {
        policy := Some(cfg.policies[i]);
        pins.Store(e, e.val.(lastSeen := now));
      } else {
        pins.Remove(k);
      }
    }

    /** forwarder_reload_config, once no packet is in flight; fails when the topology differs. */
    method Reload(next: Config) returns (ok: bool)
      requires Valid() && |next.policies| <= MaxPolicies
      modifies this, rt`active, rt`counter, rt.ctx, rt.ready, rt.index, pins.repr
      ensures Valid() && pins.repr == old(pins.repr)
      ensures ok <==> SameNamesInOrder(old(cfg), next)
      ensures cfg == if ok then next else old(cfg)
      ensures ok && old(enabled) == old(cfg).cryptoEnabled ==> enabled == next.cryptoEnabled
      ensures !ok ==> enabled == old(enabled)
      ensures var rebuilt := ok && next.cryptoEnabled != 0 && CryptoPart(old(cfg)) != CryptoPart(next);
              && (rebuilt ==> pins.entries == map[] && rt.active == next.policies && rt.Keyed(next.policies)
                              && rt.LeadsToFirst(next.policies))
              && (!rebuilt ==> pins.entries == old(pins.entries) && rt.active == old(rt.active)
                               && rt.ctx[..] == old(rt.ctx[..]) && rt.ready[..] == old(rt.ready[..]))
      ensures View() == Apply(old(View()), Op.Reload(next))
    {
      hide PinHash;
      hide Table.Valid;
      hide Runtime.Valid;
      hide Runtime.Keyed;
      hide Runtime.LeadsToFirst;
      hide Runtime.HasContexts;
      hide Runtime.Indexed;
      hide Encrypts;
      hide SameTopology;
      hide SameNamesInOrder;
      hide SameCrypto;
      hide CryptoPart;
      TopologyIsNames(cfg, next);
      CryptoIsAllElse(cfg, next);
      ok := CompareTopology(cfg, next);
      if !ok {
        return;
      }
      var needCrypto := CryptoRuntimeChanged(cfg, next);
      if !needCrypto && SameForwarding(cfg, next) {
        cfg := next;
        return;
      }
      cfg := next;
      enabled := next.cryptoEnabled;
      if enabled != 0 && needCrypto {
        var _ := rt.Rebuild(next.policies);
        rt.ReadyShows(next.policies);
        pins.Clear();
      }
    }
  }
}
