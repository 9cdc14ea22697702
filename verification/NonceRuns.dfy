/**
 * Nonces over runs of seals and reloads. The nonce counter is one for all threads and keys, a reload
 * that initialises a context starts it anew, and contexts of unchanged policies keep their keys
 * (packet_crypto_init and packet_crypto_next_counter in src/crypto/packet_crypto.c,
 * rebuild_crypto_runtime in src/core/forwarder.c).
 */
module NonceRuns {
  import opened Bytes
  import opened CryptoRuntime
  import opened PacketCrypto
  import opened Policy

  /** How many values a 31-bit counter has. */
  const Counters := 0x8000_0000

  // ---- one nonce ----

  /** A nonce below four octets drops the low octets of the counter. */
  function Granule(size: nat): (g: nat)
    requires size >= 1
    ensures g > 0
  {
    if size >= 4 then 1 else if size == 3 then 0x100 else if size == 2 then 0x1_0000 else 0x100_0000
  }

  lemma OctetsOf(c: u32)
    requires c < Counters
    ensures c / 0x100_0000 % 128 == c / 0x100_0000
    ensures c / 0x1_0000 == c / 0x100_0000 * 256 + c / 0x1_0000 % 256
    ensures c / 0x100 == c / 0x1_0000 * 256 + c / 0x100 % 256
    ensures c == c / 0x100 * 256 + c % 256
  {
  }

  lemma DigitsUnique(p: nat, x: byte, q: nat, y: byte)
    ensures p * 256 + x == q * 256 + y <==> p == q && x == y
  {
  }

  lemma SameQuotients(a: u32, b: u32)
    requires a < Counters && b < Counters
    ensures var (a0, b0) := (a / 0x100_0000 % 128 == b / 0x100_0000 % 128, a / 0x1_0000 % 256 == b / 0x1_0000 % 256);
            var (c0, d0) := (a / 0x100 % 256 == b / 0x100 % 256, a % 256 == b % 256);
            && (a0 <==> a / 0x100_0000 == b / 0x100_0000)
            && (a0 && b0 <==> a / 0x1_0000 == b / 0x1_0000)
            && (a0 && b0 && c0 <==> a / 0x100 == b / 0x100)
            && (a0 && b0 && c0 && d0 <==> a == b)
  {
    OctetsOf(a);
    OctetsOf(b);
    DigitsUnique(a / 0x100_0000, a / 0x1_0000 % 256, b / 0x100_0000, b / 0x1_0000 % 256);
    DigitsUnique(a / 0x1_0000, a / 0x100 % 256, b / 0x1_0000, b / 0x100 % 256);
    DigitsUnique(a / 0x100, a % 256, b / 0x100, b % 256);
  }

  lemma SameStart(x: seq<byte>, y: seq<byte>, n: nat)
    requires |x| == |y| == 4 && 1 <= n <= 4
    ensures x[..n] == y[..n] <==>
              x[0] == y[0] && (n > 1 ==> x[1] == y[1]) && (n > 2 ==> x[2] == y[2]) && (n > 3 ==> x[3] == y[3])
  {
    if x[..n] == y[..n] {
      assert forall k :: 0 <= k < n ==> x[k] == x[..n][k] && y[k] == y[..n][k];
    }
  }

  /** The leading octets of the counter. */
  function Head(c: u32): (h: seq<byte>)
    ensures |h| == 4
  {
    [c / 0x100_0000 % 128, c / 0x1_0000 % 256, c / 0x100 % 256, c % 256]
  }

  /** They tell apart exactly what the granule does. */
  lemma HeadsDiffer(a: u32, b: u32, size: nat)
    requires a < Counters && b < Counters && size >= 1
    ensures var n := if size < 4 then size else 4;
            Head(a)[..n] == Head(b)[..n] <==> a / Granule(size) == b / Granule(size)
  {
    SameQuotients(a, b);
    SameStart(Head(a), Head(b), if size < 4 then size else 4);
  }

  lemma NonceHead(c: u32, s: Salt, size: nat)
    requires 1 <= size <= 16
    ensures Nonce(c, s, size) == (Head(c) + s)[..size]
  {
  }

  /** Two nonces are equal exactly when the counters agree up to the granule and the salts as far as they are used. */
  lemma NonceEqualExactly(a: u32, b: u32, s: Salt, t: Salt, size: nat)
    requires a < Counters && b < Counters && 1 <= size <= 16
    ensures Nonce(a, s, size) == Nonce(b, t, size) <==>
              && a / Granule(size) == b / Granule(size)
              && (size > 4 ==> s[..size - 4] == t[..size - 4])
  {
    hide Granule;
    hide Head;
    NonceHead(a, s, size);
    NonceHead(b, t, size);
    HeadsDiffer(a, b, size);
    var x, y := Head(a), Head(b);
    if size <= 4 {
      assert (x + s)[..size] == x[..size] && (y + t)[..size] == y[..size];
    } else {
      assert (x + s)[..size] == x + s[..size - 4] && (y + t)[..size] == y + t[..size - 4];
      assert x[..4] == x && y[..4] == y;
      JoinedEqual(x, y, s[..size - 4], t[..size - 4]);
    }
  }

  lemma JoinedEqual(x: seq<byte>, y: seq<byte>, s: seq<byte>, t: seq<byte>)
    requires |x| == |y|
    ensures x + s == y + t <==> x == y && s == t
  {
    if x + s == y + t {
      assert (x + s)[..|x|] == x && (y + t)[..|x|] == y && (x + s)[|x|..] == s && (y + t)[|x|..] == t;
    }
  }

  // ---- runs ----

  /** One encryption: by which thread, under which policy, with which counter value. */
  datatype Sealed = Sealed(thread: nat, policy: Policy, counter: u32)

  datatype Step = SealBy(thread: nat, i: nat) | Reload(ps: seq<Policy>)

  /** The true counter, the policies in force, the encryptions so far, and the highest counter reached. */
  datatype State = State(counter: nat, active: seq<Policy>, seals: seq<Sealed>, top: nat)

  /** A reload initialises the policies that have keys and were not in force before. */
  predicate Restarts(active: seq<Policy>, ps: seq<Policy>) {
    exists i :: 0 <= i < |ps| && Encrypts(ps[i]) && ps[i] !in active
  }

  function Apply(st: State, step: Step): State {
    match step
    case SealBy(thread, i) =>
      if i < |st.active| && Encrypts(st.active[i])
      then st.(counter := st.counter + 1, seals := st.seals + [Sealed(thread, st.active[i], st.counter % Counters)],
               top := if st.counter + 1 > st.top then st.counter + 1 else st.top)
      else st
    case Reload(ps) =>
      st.(counter := if Restarts(st.active, ps) then 0 else st.counter, active := ps)
  }

  function Run(steps: seq<Step>): State {
    if steps == [] then State(0, [], [], 0) else Apply(Run(steps[..|steps| - 1]), steps[|steps| - 1])
  }

  /** That is when the rebuild of a runtime restarts its counter. */
  lemma RestartsAsRebuilt(rt: Runtime, ps: seq<Policy>)
    requires rt.FreshFor(rt.active)
    ensures Initialises(ps, |ps|, rt.active, rt.ready[..]) <==> Restarts(rt.active, ps)
  {
    hide Encrypts;
    hide Slot;
    forall i | 0 <= i < |ps| && Encrypts(ps[i])
      ensures Reused(ps[i], rt.active, rt.ready[..]) <==> ps[i] in rt.active
    {
      if ps[i] in rt.active {
        var oi :| 0 <= oi < |rt.active| && rt.active[oi] == ps[i];
        assert rt.ready[..][oi];
      }
    }
  }

  predicate Used(seals: seq<Sealed>, c: int) {
    exists k :: 0 <= k < |seals| && seals[k].counter == c
  }

  /** No two encryptions had the same counter value. */
  predicate Distinct(seals: seq<Sealed>) {
    forall j, k :: 0 <= j < k < |seals| ==> seals[j].counter != seals[k].counter
  }

  /** top is the largest number of encryptions between two restarts; all values below it were used. */
  ghost predicate Covers(st: State) {
    && st.counter <= st.top <= |st.seals|
    && forall c :: Used(st.seals, c) <==> 0 <= c < Counters && c < st.top
  }

  lemma UsedAppend(seals: seq<Sealed>, s: Sealed, c: int)
    ensures Used(seals + [s], c) <==> Used(seals, c) || c == s.counter
  {
    if c == s.counter {
      assert (seals + [s])[|seals|].counter == c;
    }
    if Used(seals, c) {
      var k :| 0 <= k < |seals| && seals[k].counter == c;
      assert (seals + [s])[k].counter == c;
    }
  }

  lemma DistinctAppend(seals: seq<Sealed>, s: Sealed)
    ensures Distinct(seals + [s]) <==> Distinct(seals) && !Used(seals, s.counter)
  {
    var all := seals + [s];
    if Distinct(all) {
      assert forall j, k :: 0 <= j < k < |seals| ==> all[j] == seals[j] && all[k] == seals[k];
      forall k | 0 <= k < |seals|
        ensures seals[k].counter != s.counter
      {
        assert all[k] == seals[k] && all[|seals|] == s;
      }
    }
  }

  lemma SealCovers(st: State, s: Sealed)
    requires Covers(st) && s.counter == st.counter % Counters
    ensures var top := if st.counter + 1 > st.top then st.counter + 1 else st.top;
            && Covers(st.(counter := st.counter + 1, seals := st.seals + [s], top := top))
            && (Used(st.seals, s.counter) <==> st.counter < st.top || st.counter >= Counters)
  {
    hide Used;
    forall c
      ensures Used(st.seals + [s], c) <==> Used(st.seals, c) || c == s.counter
    {
      UsedAppend(st.seals, s, c);
    }
  }

  /** Over any run the counter values used are those below the highest counter, each 31 bits wide. */
  lemma {:induction false} RunCovers(steps: seq<Step>)
    ensures Covers(Run(steps))
  {
    hide Covers;
    hide Restarts;
    hide Encrypts;
    if steps == [] {
      NothingCovered();
    } else {
      var before, step := Run(steps[..|steps| - 1]), steps[|steps| - 1];
      RunCovers(steps[..|steps| - 1]);
      match step {
        case SealBy(thread, i) =>
          if i < |before.active| && Encrypts(before.active[i]) {
            SealCovers(before, Sealed(thread, before.active[i], before.counter % Counters));
          }
        case Reload(ps) =>
          ReloadCovers(before, ps);
      }
    }
  }

  lemma NothingCovered()
    ensures Covers(State(0, [], [], 0))
  {
  }

  lemma ReloadCovers(st: State, ps: seq<Policy>)
    requires Covers(st)
    ensures Covers(Apply(st, Reload(ps)))
  {
  }

  /**
   * The counter values of a run are pairwise distinct if and only if all encryptions lie between two
   * restarts and there are at most 2^31 of them.
   */
  lemma {:induction false} DistinctExactly(steps: seq<Step>)
    ensures Distinct(Run(steps).seals) <==> |Run(steps).seals| == Run(steps).top <= Counters
  {
    hide Distinct;
    hide Used;
    hide Restarts;
    hide Encrypts;
    if steps == [] {
      NothingDistinct();
    } else {
      var before, step := Run(steps[..|steps| - 1]), steps[|steps| - 1];
      DistinctExactly(steps[..|steps| - 1]);
      RunCovers(steps[..|steps| - 1]);
      if step.SealBy? && step.i < |before.active| && Encrypts(before.active[step.i]) {
        var s := Sealed(step.thread, before.active[step.i], before.counter % Counters);
        DistinctAppend(before.seals, s);
        SealCovers(before, s);
      }
    }
  }

  lemma NothingDistinct()
    ensures Distinct([])
  {
  }

  /** Without a restart after the first step, every encryption counts. */
  lemma RunWithoutRestart(steps: seq<Step>)
    requires forall k :: 1 <= k < |steps| && steps[k].Reload? ==> !Restarts(Run(steps[..k]).active, steps[k].ps)
    ensures Run(steps).top == Run(steps).counter == |Run(steps).seals|
  {
    hide Restarts;
    hide Encrypts;
    if steps != [] {
      var rest := steps[..|steps| - 1];
      forall k | 1 <= k < |rest| && rest[k].Reload?
        ensures !Restarts(Run(rest[..k]).active, rest[k].ps)
      {
        assert rest[..k] == steps[..k] && rest[k] == steps[k];
      }
      RunWithoutRestart(rest);
      if |steps| == 1 {
        assert rest == [];
      } else {
        assert steps[..|steps| - 1] == rest;
      }
    }
  }

  // ---- nonces of a run ----

  /** Encryptions j and k used one nonce under one key; salts holds what each thread has drawn. */
  predicate Repeats(salts: nat -> Salt, hmac: Hmac, j: Sealed, k: Sealed)
    requires 1 <= j.policy.nonceSize <= 16
  {
    && InitCtx(hmac, j.policy.aesBits, j.policy.key).current == InitCtx(hmac, k.policy.aesBits, k.policy.key).current
    && j.policy.nonceSize == k.policy.nonceSize
    && Nonce(j.counter, salts(j.thread), j.policy.nonceSize) == Nonce(k.counter, salts(k.thread), j.policy.nonceSize)
  }

  /**
   * With nonces of at least four octets, encryptions of one thread under one policy repeat one
   * exactly with equal counters.
   */
  lemma RepeatsExactly(salts: nat -> Salt, hmac: Hmac, j: Sealed, k: Sealed)
    requires 4 <= j.policy.nonceSize <= 16 && j.policy == k.policy && j.thread == k.thread
    requires j.counter < Counters && k.counter < Counters
    ensures Repeats(salts, hmac, j, k) <==> j.counter == k.counter
  {
    hide Nonce;
    hide InitCtx;
    NonceEqualExactly(j.counter, k.counter, salts(j.thread), salts(k.thread), j.policy.nonceSize);
  }

  lemma CounterInRange(steps: seq<Step>, k: nat)
    requires k < |Run(steps).seals|
    ensures Run(steps).seals[k].counter < Counters
  {
    RunCovers(steps);
    assert Used(Run(steps).seals, Run(steps).seals[k].counter);
  }

  /** Any run of one thread under one policy. */
  predicate OneSealer(seals: seq<Sealed>, thread: nat, policy: Policy) {
    forall k :: 0 <= k < |seals| ==> seals[k].thread == thread && seals[k].policy == policy
  }

  /**
   * A thread that encrypts under one policy with nonces of at least four octets never repeats a
   * nonce if and only if all its encryptions lie between two restarts and are at most 2^31.
   */
  lemma NoRepeatsExactly(salts: nat -> Salt, hmac: Hmac, steps: seq<Step>, thread: nat, policy: Policy)
    requires 4 <= policy.nonceSize <= 16 && OneSealer(Run(steps).seals, thread, policy)
    ensures var seals := Run(steps).seals;
            (forall j, k :: 0 <= j < k < |seals| ==> !Repeats(salts, hmac, seals[j], seals[k])) <==>
              |seals| == Run(steps).top <= Counters
  {
    hide Run;
    hide Repeats;
    var seals := Run(steps).seals;
    forall j, k | 0 <= j < k < |seals|
      ensures Repeats(salts, hmac, seals[j], seals[k]) <==> seals[j].counter == seals[k].counter
    {
      CounterInRange(steps, j);
      CounterInRange(steps, k);
      RepeatsExactly(salts, hmac, seals[j], seals[k]);
    }
    DistinctExactly(steps);
  }

  /** The same state after one more step. */
  lemma RunOne(steps: seq<Step>, step: Step)
    ensures Run(steps + [step]) == Apply(Run(steps), step)
  {
    hide Apply;
    assert (steps + [step])[..|steps|] == steps;
  }

  /**
   * A reload that keeps a policy and adds any other with a key makes the next encryption under the
   * kept policy repeat the nonce of the first one after the last restart.
   */
  lemma ReloadRepeats(salts: nat -> Salt, hmac: Hmac, a: Policy, b: Policy, thread: nat)
    requires Encrypts(a) && Encrypts(b) && a != b && 1 <= a.nonceSize <= 16
    ensures var seals := Run([Reload([a])] + [SealBy(thread, 0)] + [Reload([a, b])] + [SealBy(thread, 0)]).seals;
            && |seals| == 2 && seals[0].thread == seals[1].thread && seals[0].policy == seals[1].policy == a
            && Repeats(salts, hmac, seals[0], seals[1])
  {
    hide Encrypts;
    hide InitCtx;
    hide Nonce;
    assert Run([]) == State(0, [], [], 0);
    RunOne([], Reload([a]));
    assert [] + [Reload([a])] == [Reload([a])];
    RunOne([Reload([a])], SealBy(thread, 0));
    RunOne([Reload([a])] + [SealBy(thread, 0)], Reload([a, b]));
    assert [a, b][1] == b && Restarts([a], [a, b]);
    RunOne([Reload([a])] + [SealBy(thread, 0)] + [Reload([a, b])], SealBy(thread, 0));
  }
}
