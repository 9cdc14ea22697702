/**
 * Key contexts per policy and the (action, wire id) index
 * (rebuild_crypto_runtime in src/core/forwarder.c, packet_crypto_init in src/crypto/packet_crypto.c).
 */
module CryptoRuntime {
  import opened Bytes
  import opened ConfigMerge
  import opened PacketCrypto
  import opened Policy

  const Actions := EncryptL4 + 1

  // ---- contexts ----

  /** HMAC-SHA256 on (key, message); nothing is assumed about it. */
  type Hmac = (seq<byte>, seq<byte>) -> Key

  /** get_key_size. */
  function KeySize(aesBits: int): nat {
    if aesBits == 256 then 32 else 16
  }

  /** The first n octets of a key, the rest cleared. */
  function Truncated(k: Key, n: nat): (r: Key)
    requires n <= 32
  {
    k[..n] + seq(32 - n, _ => 0)
  }

  /** derive_key for epoch 0 into a cleared slot. */
  function Derived(hmac: Hmac, aesBits: int, master: Key): Key {
    Truncated(hmac(master[..KeySize(aesBits)], seq(8, _ => 0)), KeySize(aesBits))
  }

  /** packet_crypto_init under the given key size. */
  function InitCtx(hmac: Hmac, aesBits: int, key: Key): Ctx {
    var master := Truncated(key, KeySize(aesBits));
    var k := Derived(hmac, aesBits, master);
    Ctx(master, k, k, k, true)
  }

  /** Only as many key octets as the cipher uses reach the context. */
  lemma InitUsesKeySize(hmac: Hmac, aesBits: int, a: Key, b: Key)
    requires a[..KeySize(aesBits)] == b[..KeySize(aesBits)]
    ensures InitCtx(hmac, aesBits, a) == InitCtx(hmac, aesBits, b)
  {
    assert Truncated(a, KeySize(aesBits)) == Truncated(b, KeySize(aesBits));
  }

  /**
   * A context of the configured key: as many of its octets as the cipher takes, and in all three
   * places what the HMAC makes of them and epoch 0, the rest cleared.
   */
  predicate KeyedBy(hmac: Hmac, cp: Policy, c: Ctx) {
    var n := if cp.aesBits == 256 then 32 else 16;
    var derived := hmac(cp.key[..n], [0, 0, 0, 0, 0, 0, 0, 0]);
    && c.initialized && c.master[..n] == cp.key[..n]
    && c.current[..n] == derived[..n] && c.prev == c.current && c.next == c.current
    && forall i :: n <= i < 32 ==> c.master[i] == 0 && c.current[i] == 0
  }

  /** That is what initialising gives, and nothing else is. */
  lemma InitIsKeyed(hmac: Hmac, cp: Policy, c: Ctx)
    ensures c == InitCtx(hmac, cp.aesBits, cp.key) <==> KeyedBy(hmac, cp, c)
  {
    var n := KeySize(cp.aesBits);
    var m := Truncated(cp.key, n);
    assert m[..n] == cp.key[..n];
    assert seq(8, _ => 0) == [0, 0, 0, 0, 0, 0, 0, 0];
    if KeyedBy(hmac, cp, c) {
      assert c.master == m;
      assert c.current == Derived(hmac, cp.aesBits, m);
    }
  }

  /** Policies get a context exactly if they do not bypass and their key has a non-zero octet. */
  predicate Usable(cp: Policy) {
    cp.action != 0 && exists k :: 0 <= k < 32 && cp.key[k] != 0
  }

  /** r is the first usable policy of this action and low id octet, or -1 without one. */
  predicate First(ps: seq<Policy>, r: int, action: int, id: int) {
    && (r == -1 || (0 <= r < |ps| && Usable(ps[r]) && ps[r].action == action && ps[r].id % 256 == id))
    && forall i :: 0 <= i < (if r == -1 then |ps| else r) ==>
         !(Usable(ps[i]) && ps[i].action == action && ps[i].id % 256 == id)
  }

  // ---- what a rebuild should give ----

  predicate KeyNonZero(key: Key) {
    exists k :: 0 <= k < |key| && key[k] != 0
  }

  /** Policies that get a context. */
  predicate Encrypts(cp: Policy) {
    cp.action != Bypass && KeyNonZero(cp.key)
  }

  function WireId(cp: Policy): byte {
    cp.id % 256
  }

  predicate Answers(ps: seq<Policy>, i: nat, action: int, id: byte) {
    i < |ps| && Encrypts(ps[i]) && ps[i].action == action && WireId(ps[i]) == id
  }

  /** The first of the first n policies with a context for this action and wire id, or -1. */
  function Slot(ps: seq<Policy>, n: nat, action: int, id: byte): (r: int)
    requires n <= |ps|
    ensures -1 <= r < n
  {
    if n == 0 then -1
    else
      var before := Slot(ps, n - 1, action, id);
      if before >= 0 then before else if Answers(ps, n - 1, action, id) then n - 1 else -1
  }

  lemma {:induction false} SlotIsFirst(ps: seq<Policy>, n: nat, action: int, id: byte)
    requires n <= |ps|
    ensures var r := Slot(ps, n, action, id);
            && (r >= 0 ==> Answers(ps, r, action, id))
            && forall i :: 0 <= i < (if r >= 0 then r else n) ==> !Answers(ps, i, action, id)
  {
    hide Answers;
    if n > 0 {
      SlotIsFirst(ps, n - 1, action, id);
    }
  }

  lemma SlotIsFirstUsable(ps: seq<Policy>, action: int, id: byte)
    ensures First(ps, Slot(ps, |ps|, action, id), action, id)
  {
    hide Slot;
    hide Usable;
    hide Encrypts;
    SlotIsFirst(ps, |ps|, action, id);
    forall i | 0 <= i < |ps|
      ensures Answers(ps, i, action, id) <==> Usable(ps[i]) && ps[i].action == action && ps[i].id % 256 == id
    {
      UsableExactly(ps[i]);
    }
  }

  lemma UsableExactly(cp: Policy)
    ensures Usable(cp) <==> Encrypts(cp)
  {
  }

  /** A lookup in the table finds a policy with a context exactly when there is one. */
  lemma SlotFindsReady(ps: seq<Policy>, action: int, id: byte)
    ensures Slot(ps, |ps|, action, id) >= 0 <==> exists i :: 0 <= i < |ps| && Answers(ps, i, action, id)
  {
    SlotIsFirst(ps, |ps|, action, id);
  }

  /** With distinct wire ids, as every merge leaves them, each policy with a context finds itself. */
  lemma SlotIsHome(ps: seq<Policy>, i: nat)
    requires IdsDistinct(ps) && i < |ps| && Encrypts(ps[i])
    ensures Slot(ps, |ps|, ps[i].action, WireId(ps[i])) == i
  {
    SlotIsFirst(ps, |ps|, ps[i].action, WireId(ps[i]));
    assert Answers(ps, i, ps[i].action, WireId(ps[i]));
  }

  // ---- when a rebuild initialises ----

  /** An equal policy that already has a context. */
  predicate Reused(cp: Policy, oldPolicies: seq<Policy>, oldReady: seq<bool>) {
    exists oi :: 0 <= oi < |oldPolicies| && oi < |oldReady| && oldReady[oi] && oldPolicies[oi] == cp
  }

  /** Some of the first n policies needs packet_crypto_init. */
  predicate Initialises(ps: seq<Policy>, n: nat, oldPolicies: seq<Policy>, oldReady: seq<bool>) {
    exists i :: 0 <= i < n <= |ps| && Encrypts(ps[i]) && !Reused(ps[i], oldPolicies, oldReady)
  }

  // ---- the runtime ----

  class Runtime {
    const hmac: Hmac
    const ctx: array<Ctx>
    const ready: array<bool>
    const index: array2<int>
    var active: seq<Policy>
    /** g_nonce_counter: what packet_crypto_next_counter counts, before it is cut to 31 bits. */
    var counter: nat

    ghost predicate Shape()
      reads this, ctx, ready, index
    {
      && ctx.Length == ready.Length == MaxPolicies && |active| <= MaxPolicies
      && index.Length0 == Actions && index.Length1 == 256
    }

    /** Every context in use is the one its policy would be given from scratch. */
    ghost predicate Valid()
      reads this, ctx, ready, index
    {
      Shape() && Sound(active, ctx[..], ready[..])
    }

    static ghost predicate SoundUpTo(hmac: Hmac, ps: seq<Policy>, ctx: seq<Ctx>, ready: seq<bool>, n: nat)
      requires |ctx| == |ready| == MaxPolicies
    {
      forall i :: 0 <= i < n <= |ready| && ready[i] ==> i < |ps| && ctx[i] == InitCtx(hmac, ps[i].aesBits, ps[i].key)
    }

    ghost predicate Sound(ps: seq<Policy>, ctx: seq<Ctx>, ready: seq<bool>)
      requires |ctx| == |ready| == MaxPolicies
    {
      SoundUpTo(hmac, ps, ctx, ready, MaxPolicies)
    }

    /** The state that initialising every policy of ps from scratch would leave. */
    ghost predicate FreshFor(ps: seq<Policy>)
      reads this, ctx, ready, index
    {
      Shape() && active == ps && HasContexts(ps, |ps|) && Indexed(ps, |ps|)
    }

    /** Every usable policy of ps, and no other, has a context of its own key. */
    ghost predicate Keyed(ps: seq<Policy>)
      requires ctx.Length == ready.Length == MaxPolicies
      reads this, ctx, ready
    {
      forall i :: 0 <= i < MaxPolicies ==>
        (ready[i] <==> i < |ps| && Usable(ps[i])) && (ready[i] ==> KeyedBy(hmac, ps[i], ctx[i]))
    }

    /** The table leads from action and low id octet to the first such policy, or to -1. */
    ghost predicate LeadsToFirst(ps: seq<Policy>)
      requires index.Length0 == 5 && index.Length1 == 256
      reads this, index
    {
      forall a, id :: 0 <= a < 5 && 0 <= id < 256 ==>
        First(ps, index[a, id], a, id)
    }

    lemma FreshIsKeyed(ps: seq<Policy>)
      requires FreshFor(ps)
      ensures Keyed(ps) && LeadsToFirst(ps)
    {
      hide InitCtx;
      hide Slot;
      hide KeyedBy;
      hide First;
      forall i | 0 <= i < MaxPolicies && ready[i]
        ensures KeyedBy(hmac, ps[i], ctx[i])
      {
        InitIsKeyed(hmac, ps[i], ctx[i]);
        assert ctx[..][i] == ctx[i] && ready[..][i];
      }
      forall a, id: byte | 0 <= a < 5
        ensures First(ps, index[a, id], a, id)
      {
        SlotIsFirstUsable(ps, a, id);
      }
    }

    /** The first n policies have their contexts; the rest have none. */
    ghost predicate HasContexts(ps: seq<Policy>, n: nat)
      requires ctx.Length == ready.Length == MaxPolicies && n <= |ps|
      reads ctx, ready
    {
      && Sound(ps, ctx[..], ready[..])
      && forall i :: 0 <= i < MaxPolicies ==> (ready[i] <==> i < n && Encrypts(ps[i]))
    }

    ghost predicate Indexed(ps: seq<Policy>, n: nat)
      requires index.Length0 == Actions && index.Length1 == 256 && n <= |ps|
      reads index
    {
      forall a, id :: 0 <= a < Actions && 0 <= id < 256 ==> index[a, id] == Slot(ps, n, a, id)
    }

    constructor (hmac: Hmac)
      ensures Valid() && fresh(ctx) && fresh(ready) && fresh(index) && active == [] && counter == 0 && this.hmac == hmac
      ensures forall i :: 0 <= i < MaxPolicies ==> !ready[i]
    {
      this.hmac := hmac;
      active, counter := [], 0;
      ctx := new Ctx[MaxPolicies];
      ready := new bool[MaxPolicies](_ => false);
      index := new int[Actions, 256]((_, _) => 0);
    }

    /** packet_crypto_next_counter. */
    method NextCounter() returns (c: u32)
      modifies this`counter
      ensures c == old(counter) % 0x8000_0000 && counter == old(counter) + 1
    {
      c := counter % 0x8000_0000;
      counter := counter + 1;
    }

    method ClearIndex()
      requires index.Length0 == Actions && index.Length1 == 256
      modifies index
      ensures forall a, id :: 0 <= a < Actions && 0 <= id < 256 ==> index[a, id] == -1
    {
      var a := 0;
      while a < Actions
        invariant 0 <= a <= Actions
        invariant forall b, id :: 0 <= b < a && 0 <= id < 256 ==> index[b, id] == -1
      {
        var id := 0;
        while id < 256
          invariant 0 <= id <= 256
          invariant forall b, j :: 0 <= b < a && 0 <= j < 256 ==> index[b, j] == -1
          invariant forall j :: 0 <= j < id ==> index[a, j] == -1
        {
          index[a, id] := -1;
          id := id + 1;
        }
        a := a + 1;
      }
    }

    /** Bypass test and key scan of the rebuild loop. */
    static method GetsContext(cp: Policy) returns (encrypts: bool)
      ensures encrypts <==> Encrypts(cp)
    {
      if cp.action == Bypass {
        return false;
      }
      var k := 0;
      while k < 32
        invariant 0 <= k <= 32 && forall j :: 0 <= j < k ==> cp.key[j] == 0
      {
        if cp.key[k] != 0 {
          return true;
        }
        k := k + 1;
      }
      encrypts := false;
    }

    /** The context of the first equal policy that had one, else a new one. */
    static method ContextFor(hmac: Hmac, cp: Policy, oldPolicies: seq<Policy>, oldCtx: seq<Ctx>, oldReady: seq<bool>)
      returns (c: Ctx, reused: bool)
      requires |oldCtx| == |oldReady| == MaxPolicies && |oldPolicies| <= MaxPolicies
      requires SoundUpTo(hmac, oldPolicies, oldCtx, oldReady, MaxPolicies)
      ensures c == InitCtx(hmac, cp.aesBits, cp.key)
      ensures reused <==> Reused(cp, oldPolicies, oldReady)
    {
      hide InitCtx;
      var oi := 0;
      while oi < |oldPolicies|
        invariant 0 <= oi <= |oldPolicies|
        invariant forall k :: 0 <= k < oi ==> !(oldReady[k] && oldPolicies[k] == cp)
      {
        if oldReady[oi] && oldPolicies[oi] == cp {
          return oldCtx[oi], true;
        }
        oi := oi + 1;
      }
      c, reused := InitCtx(hmac, cp.aesBits, cp.key), false;
    }

    /**
     * rebuild_crypto_runtime: although it reuses old contexts, it leaves what initialising every
     * policy from scratch would - and starts the nonce counter anew if it initialised any.
     */
    method Rebuild(ps: seq<Policy>) returns (hasL2: bool)
      requires Valid() && |ps| <= MaxPolicies
      modifies this`active, this`counter, ctx, ready, index
      ensures Valid() && FreshFor(ps) && Keyed(ps) && LeadsToFirst(ps)
      ensures counter == if Initialises(ps, |ps|, old(active), old(ready[..])) then 0 else old(counter)
      ensures hasL2 <==> exists i :: 0 <= i < |ps| && Encrypts(ps[i]) && ps[i].action == EncryptL2
      ensures hasL2 <==> exists i :: 0 <= i < |ps| && ready[i] && ps[i].action == 2
    {
      hide InitCtx;
      hide KeyedBy;
      hide Usable;
      hide Slot;
      hide Encrypts;
      hide Indexed;
      hide SoundUpTo;
      hide HasContexts;
      hide Reused;
      var oldCtx, oldReady, oldPolicies := ctx[..], ready[..], active;
      ClearReady(ps);
      ClearIndex();
      NothingIndexed(ps);
      hasL2 := false;
      var pi := 0;
      while pi < |ps|
        invariant 0 <= pi <= |ps| && Shape() && active == oldPolicies
        invariant HasContexts(ps, pi) && Indexed(ps, pi)
        invariant counter == if Initialises(ps, pi, oldPolicies, oldReady) then 0 else old(counter)
        invariant hasL2 <==> exists i :: 0 <= i < pi && Encrypts(ps[i]) && ps[i].action == EncryptL2
      {
        var encrypts := InstallContext(ps, pi, oldPolicies, oldCtx, oldReady);
        if encrypts && ps[pi].action == EncryptL2 {
          hasL2 := true;
        }
        IndexPolicy(ps, pi, encrypts);
        pi := pi + 1;
      }
      active := ps;
      ContextsAreSound(ps);
      FreshIsKeyed(ps);
      ReadyShows(ps);
    }

    lemma ReadyShows(ps: seq<Policy>)
      requires ctx.Length == ready.Length == MaxPolicies && |ps| <= MaxPolicies && HasContexts(ps, |ps|)
      ensures forall i :: 0 <= i < MaxPolicies ==> (ready[i] <==> i < |ps| && Encrypts(ps[i]))
    {
    }

    lemma ContextsAreSound(ps: seq<Policy>)
      requires ctx.Length == ready.Length == MaxPolicies && HasContexts(ps, |ps|)
      ensures Sound(ps, ctx[..], ready[..])
    {
    }

    /** One turn of the rebuild loop, before the index. */
    method InstallContext(ps: seq<Policy>, pi: nat, oldPolicies: seq<Policy>, oldCtx: seq<Ctx>, oldReady: seq<bool>)
      returns (encrypts: bool)
      requires ctx.Length == ready.Length == MaxPolicies && pi < |ps| <= MaxPolicies && HasContexts(ps, pi)
      requires |oldCtx| == |oldReady| == MaxPolicies && |oldPolicies| <= MaxPolicies
      requires SoundUpTo(hmac, oldPolicies, oldCtx, oldReady, MaxPolicies)
      modifies ctx, ready, this`counter
      ensures HasContexts(ps, pi + 1) && (encrypts <==> Encrypts(ps[pi]))
      ensures counter == if encrypts && !Reused(ps[pi], oldPolicies, oldReady) then 0 else old(counter)
    {
      hide InitCtx;
      hide Encrypts;
      hide Reused;
      encrypts := GetsContext(ps[pi]);
      if encrypts {
        var c, reused := ContextFor(hmac, ps[pi], oldPolicies, oldCtx, oldReady);
        if !reused {
          counter := 0;
        }
        ctx[pi] := c;
        ready[pi] := true;
      }
    }

    method ClearReady(ghost ps: seq<Policy>)
      requires ctx.Length == ready.Length == MaxPolicies
      modifies ready
      ensures HasContexts(ps, 0)
    {
      var i := 0;
      while i < MaxPolicies
        invariant 0 <= i <= MaxPolicies
        invariant forall k :: 0 <= k < i ==> !ready[k]
      {
        ready[i] := false;
        i := i + 1;
      }
    }

    lemma NothingIndexed(ps: seq<Policy>)
      requires index.Length0 == Actions && index.Length1 == 256
      requires forall a, id :: 0 <= a < Actions && 0 <= id < 256 ==> index[a, id] == -1
      ensures Indexed(ps, 0)
    {
    }

    /** Enters policy pi unless its place is taken. */
    method IndexPolicy(ps: seq<Policy>, pi: nat, encrypts: bool)
      requires index.Length0 == Actions && index.Length1 == 256
      requires pi < |ps| && Indexed(ps, pi) && encrypts == Encrypts(ps[pi])
      modifies index
      ensures Indexed(ps, pi + 1)
    {
      hide Encrypts;
      var cp := ps[pi];
      if encrypts && 0 <= cp.action <= EncryptL4 && index[cp.action, WireId(cp)] < 0 {
        index[cp.action, WireId(cp)] := pi;
      }
    }

    /** policy_index_from_action_id_current: some policy with a context exactly when there is one. */
    method PolicyIndex(action: int, id: byte) returns (pi: int)
      requires FreshFor(active)
      ensures pi == if 0 <= action <= EncryptL4 then Slot(active, |active|, action, id) else -1
      ensures 0 <= action <= EncryptL4
              ==> (pi == -1 <==> !exists i :: 0 <= i < |active| && Answers(active, i, action, id))
    {
      hide Slot;
      if action < 0 || action > EncryptL4 {
        return -1;
      }
      SlotIsFirst(active, |active|, action, id);
      pi := index[action, id];
      if pi < 0 || pi >= |active| || pi >= MaxPolicies {
        return -1;
      }
      if !ready[pi] {
        return -1;
      }
    }
  }

  /** Any sequence of reloads leaves what one start from scratch with the last policies would. */
  method RebuildAll(rt: Runtime, history: seq<seq<Policy>>)
    requires rt.Valid() && forall k :: 0 <= k < |history| ==> |history[k]| <= MaxPolicies
    modifies rt`active, rt`counter, rt.ctx, rt.ready, rt.index
    ensures rt.Valid()
    ensures history != [] ==> rt.FreshFor(history[|history| - 1]) && rt.Keyed(history[|history| - 1])
  {
    hide Runtime.Keyed;
    hide Runtime.LeadsToFirst;
    hide Runtime.HasContexts;
    hide Runtime.Indexed;
    hide Runtime.Sound;
    var k := 0;
    while k < |history|
      invariant 0 <= k <= |history| && rt.Valid()
      invariant k > 0 ==> rt.Shape() && rt.FreshFor(history[k - 1]) && rt.Keyed(history[k - 1])
    {
      var _ := rt.Rebuild(history[k]);
      k := k + 1;
    }
  }
}
