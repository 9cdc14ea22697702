/**
 * The protocol between packet threads and configuration reloads: packet_critical_enter,
 * packet_critical_leave and forwarder_reload_config in src/core/forwarder.c, and the two
 * configuration slots that main.c fills in turn. Every atomic operation is one step, any thread may
 * take the next one, and steps are sequentially consistent.
 */
module Quiescence {
  /**
   * What a packet thread does next: call enter, test the pause flag, count itself in, test the
   * flag again, count itself out to retry, or leave the critical section.
   */
  datatype Pc = Outside | Spin | Increment | Check | Retreat | Critical

  /**
   * The reloading thread: nothing to do; the spare slot is filled; waiting for the count to fall to
   * zero; updating, before and after it has put the new configuration in force.
   */
  datatype Reloader = Idle | Prepared | Waiting | Updating | Updated

  /**
   * epoch counts the configurations put in force, so configuration epoch is in slot epoch % 2.
   * slots says which filling each slot holds, and filled how many fillings there were. For each
   * thread, seen and held are the epoch and the filling at which it last entered.
   */
  datatype State = State(threads: seq<Pc>, inflight: int, pause: bool, reloader: Reloader, epoch: nat,
                         slots: seq<nat>, filled: nat, seen: seq<nat>, held: seq<nat>)
  {
    predicate Shaped() { |seen| == |held| == |threads| && |slots| == 2 }
  }

  /**
   * Thread i moves; Fill writes the spare slot; Reject ends a reload whose topology differs;
   * SwapAtOnce is the branch that found nothing changed, the others the branch that waits.
   */
  datatype Action = Thread(i: nat) | Fill | Reject | SwapAtOnce | Begin | Wait | Update | Finish

  /** The next step of thread i: its place, and what it adds to the count. */
  function ThreadStep(pc: Pc, pause: bool): (Pc, int) {
    match pc
    case Outside => (Spin, 0)
    case Spin => (if pause then Spin else Increment, 0)
    case Increment => (Check, 1)
    case Check => (if pause then Retreat else Critical, 0)
    case Retreat => (Spin, -1)
    case Critical => (Outside, -1)
  }

  /** One step of anyone; an action that is not possible changes nothing. */
  function Step(s: State, a: Action): (s': State)
    requires s.Shaped()
    ensures s'.Shaped() && |s'.threads| == |s.threads|
  {
    match a
    case Thread(i) =>
      if i >= |s.threads| then s
      else
        var (pc, add) := ThreadStep(s.threads[i], s.pause);
        s.(threads := s.threads[i := pc], inflight := s.inflight + add,
           seen := if pc == Critical then s.seen[i := s.epoch] else s.seen,
           held := if pc == Critical then s.held[i := s.slots[s.epoch % 2]] else s.held)
    case Fill =>
      if s.reloader == Idle
      then s.(reloader := Prepared, slots := s.slots[(s.epoch + 1) % 2 := s.filled + 1], filled := s.filled + 1) else s
    case Reject => if s.reloader == Prepared then s.(reloader := Idle) else s
    case SwapAtOnce => if s.reloader == Prepared then s.(epoch := s.epoch + 1, reloader := Idle) else s
    case Begin => if s.reloader == Prepared then s.(pause := true, reloader := Waiting) else s
    case Wait => if s.reloader == Waiting && s.inflight <= 0 then s.(reloader := Updating) else s
    case Update => if s.reloader == Updating then s.(epoch := s.epoch + 1, reloader := Updated) else s
    case Finish => if s.reloader == Updated then s.(pause := false, reloader := Idle) else s
  }

  function Run(s: State, actions: seq<Action>): (s': State)
    requires s.Shaped()
    ensures s'.Shaped() && |s'.threads| == |s.threads|
  {
    if actions == [] then s else Step(Run(s, actions[..|actions| - 1]), actions[|actions| - 1])
  }

  /** Threads outside, configuration 0 in slot 0. */
  function Start(n: nat): State {
    State(seq(n, _ => Outside), 0, false, Idle, 0, [0, 0], 0, seq(n, _ => 0), seq(n, _ => 0))
  }

  // ---- counting ----

  /** Past the increment and not yet past the decrement. */
  predicate Counted(pc: Pc) {
    pc == Check || pc == Retreat || pc == Critical
  }

  function Count(threads: seq<Pc>): nat {
    if threads == [] then 0
    else Count(threads[..|threads| - 1]) + if Counted(threads[|threads| - 1]) then 1 else 0
  }

  function Weight(pc: Pc): int {
    if Counted(pc) then 1 else 0
  }

  lemma {:induction false} CountAfter(threads: seq<Pc>, i: nat, pc: Pc)
    requires i < |threads|
    ensures Count(threads[i := pc]) == Count(threads) - Weight(threads[i]) + Weight(pc)
  {
    var last := |threads| - 1;
    if i < last {
      CountAfter(threads[..last], i, pc);
      assert threads[i := pc][..last] == threads[..last][i := pc];
    } else {
      assert threads[i := pc][..last] == threads[..last];
    }
  }

  lemma {:induction false} CountedIsCounted(threads: seq<Pc>, i: nat)
    requires i < |threads| && Counted(threads[i])
    ensures Count(threads) > 0
  {
    if i < |threads| - 1 {
      CountedIsCounted(threads[..|threads| - 1], i);
    }
  }

  lemma {:induction false} CountWitness(threads: seq<Pc>)
    requires Count(threads) > 0
    ensures exists i :: 0 <= i < |threads| && Counted(threads[i])
  {
    var last := |threads| - 1;
    if !Counted(threads[last]) {
      CountWitness(threads[..last]);
      var i :| 0 <= i < last && Counted(threads[..last][i]);
      assert Counted(threads[i]);
    }
  }

  lemma {:induction false} CountNone(n: nat)
    ensures Count(seq(n, _ => Outside)) == 0
  {
    if n > 0 {
      CountNone(n - 1);
      assert seq(n, _ => Outside)[..n - 1] == seq(n - 1, _ => Outside);
    }
  }

  // ---- exclusion ----

  predicate AnyCritical(s: State) {
    exists i :: 0 <= i < |s.threads| && s.threads[i] == Critical
  }

  predicate InUpdate(s: State) {
    s.reloader == Updating || s.reloader == Updated
  }

  /** What every reachable state satisfies, whichever branches reloads take. */
  ghost predicate Invariant(s: State) {
    && s.Shaped()
    && s.inflight == Count(s.threads)
    && (s.pause <==> s.reloader == Waiting || InUpdate(s))
    && (InUpdate(s) ==> !AnyCritical(s))
  }

  lemma InvariantIsShaped(s: State)
    requires Invariant(s)
    ensures s.Shaped()
  {
  }

  /** A count of zero means that nobody is inside. */
  lemma ZeroMeansNobody(s: State)
    requires Invariant(s) && s.inflight <= 0
    ensures !AnyCritical(s)
  {
    forall i | 0 <= i < |s.threads|
      ensures s.threads[i] != Critical
    {
      if Counted(s.threads[i]) {
        CountedIsCounted(s.threads, i);
      }
    }
  }

  lemma StepKeepsInvariant(s: State, a: Action)
    requires Invariant(s)
    ensures Invariant(Step(s, a))
  {
    hide Count;
    match a {
      case Thread(i) =>
        if i < |s.threads| {
          CountAfter(s.threads, i, ThreadStep(s.threads[i], s.pause).0);
        }
      case Wait =>
        if s.inflight <= 0 {
          ZeroMeansNobody(s);
        }
      case _ =>
    }
  }

  lemma {:induction false} RunKeepsInvariant(s: State, actions: seq<Action>)
    requires Invariant(s)
    ensures Invariant(Run(s, actions))
  {
    hide Invariant;
    InvariantIsShaped(s);
    if actions != [] {
      RunKeepsInvariant(s, actions[..|actions| - 1]);
      StepKeepsInvariant(Run(s, actions[..|actions| - 1]), actions[|actions| - 1]);
    }
  }

  /**
   * However any number of threads and reloads of either kind interleave: while a reload that waits
   * updates, no thread is between enter and leave, and the counter is the number of threads past
   * their increment.
   */
  lemma UpdatesAreExclusive(n: nat, actions: seq<Action>)
    ensures var s := Run(Start(n), actions);
            (InUpdate(s) ==> !AnyCritical(s)) && s.inflight == Count(s.threads)
  {
    CountNone(n);
    RunKeepsInvariant(Start(n), actions);
  }

  // ---- a stable configuration ----

  /** A thread in its critical section still finds in force the configuration it entered with. */
  ghost predicate Stable(s: State) {
    |s.seen| == |s.threads| && forall i :: 0 <= i < |s.threads| && s.threads[i] == Critical ==> s.seen[i] == s.epoch
  }

  /** The step replaces the configuration at once, over a thread in its critical section. */
  predicate SwapsOver(s: State, a: Action) {
    a == SwapAtOnce && s.reloader == Prepared && AnyCritical(s)
  }

  /** Of all steps, exactly those break stability. */
  lemma StaysStableExactly(s: State, a: Action)
    requires Invariant(s) && Stable(s)
    ensures Stable(Step(s, a)) <==> !SwapsOver(s, a)
  {
    hide Count;
    if SwapsOver(s, a) {
      var i :| 0 <= i < |s.threads| && s.threads[i] == Critical;
      assert Step(s, a).threads[i] == Critical && s.seen[i] == s.epoch;
    }
  }

  /** Every state of the run is stable. */
  ghost predicate AlwaysStable(s: State, actions: seq<Action>)
    requires s.Shaped()
  {
    Stable(Run(s, actions)) && (actions == [] || AlwaysStable(s, actions[..|actions| - 1]))
  }

  /** No step of the run swaps over a thread. */
  predicate NeverSwapsOver(s: State, actions: seq<Action>)
    requires s.Shaped()
  {
    actions == [] ||
    var before := actions[..|actions| - 1];
    NeverSwapsOver(s, before) && !SwapsOver(Run(s, before), actions[|actions| - 1])
  }

  /** The runs that are stable throughout are exactly those that never swap over a thread. */
  lemma {:induction false} StableRunsExactly(n: nat, actions: seq<Action>)
    ensures AlwaysStable(Start(n), actions) <==> NeverSwapsOver(Start(n), actions)
  {
    hide Stable;
    hide SwapsOver;
    hide Invariant;
    StartIsFine(n);
    if actions != [] {
      var before := actions[..|actions| - 1];
      StableRunsExactly(n, before);
      RunKeepsInvariant(Start(n), before);
      if AlwaysStable(Start(n), before) {
        StaysStableExactly(Run(Start(n), before), actions[|actions| - 1]);
      }
    }
  }

  lemma StartIsFine(n: nat)
    ensures Invariant(Start(n)) && Stable(Start(n)) && Untouched(Start(n))
  {
    CountNone(n);
  }

  // ---- configuration slots ----

  /** The slot that a thread in its critical section entered with still holds what it held then. */
  ghost predicate Untouched(s: State)
    requires s.Shaped()
  {
    forall i :: 0 <= i < |s.threads| && s.threads[i] == Critical ==> s.slots[s.seen[i] % 2] == s.held[i]
  }

  /** The step fills a slot that a thread in its critical section still uses. */
  predicate FillsUnder(s: State, a: Action)
    requires s.Shaped()
  {
    && a == Fill && s.reloader == Idle
    && exists i :: 0 <= i < |s.threads| && s.threads[i] == Critical && s.seen[i] % 2 == (s.epoch + 1) % 2
  }

  /** No thread holds a filling that is still to come. */
  ghost predicate HeldPast(s: State) {
    && (forall i :: 0 <= i < |s.held| ==> s.held[i] <= s.filled)
    && forall k :: 0 <= k < |s.slots| ==> s.slots[k] <= s.filled
  }

  /** Of all steps, exactly those overwrite a configuration in use. */
  lemma StaysUntouchedExactly(s: State, a: Action)
    requires s.Shaped() && Untouched(s) && HeldPast(s)
    ensures HeldPast(Step(s, a)) && (Untouched(Step(s, a)) <==> !FillsUnder(s, a))
  {
    if FillsUnder(s, a) {
      var i :| 0 <= i < |s.threads| && s.threads[i] == Critical && s.seen[i] % 2 == (s.epoch + 1) % 2;
      assert Step(s, a).threads[i] == Critical && s.held[i] <= s.filled;
    }
  }

  /** In a stable state nobody uses the spare slot. */
  lemma StableSparesSlot(s: State, a: Action)
    requires s.Shaped() && Stable(s)
    ensures !FillsUnder(s, a)
  {
  }

  /** A run that never swaps over a thread never overwrites a configuration in use. */
  lemma {:induction false} SlotsAreSafe(n: nat, actions: seq<Action>)
    requires NeverSwapsOver(Start(n), actions)
    ensures var s := Run(Start(n), actions);
            Invariant(s) && Stable(s) && Untouched(s) && HeldPast(s)
  {
    hide Stable;
    hide SwapsOver;
    hide Invariant;
    hide Untouched;
    StartIsFine(n);
    if actions != [] {
      var before, a := actions[..|actions| - 1], actions[|actions| - 1];
      SlotsAreSafe(n, before);
      var s := Run(Start(n), before);
      StepKeepsInvariant(s, a);
      StaysStableExactly(s, a);
      StableSparesSlot(s, a);
      StaysUntouchedExactly(s, a);
    }
  }

  /** After a swap over a thread, the very next filling overwrites the configuration it uses. */
  lemma SwapExposesSlot(s: State)
    requires Invariant(s) && Stable(s) && Untouched(s) && HeldPast(s) && SwapsOver(s, SwapAtOnce)
    ensures !Untouched(Step(Step(s, SwapAtOnce), Fill))
  {
    var s' := Step(s, SwapAtOnce);
    var i :| 0 <= i < |s.threads| && s.threads[i] == Critical;
    assert s'.threads[i] == Critical && s'.seen[i] % 2 == (s'.epoch + 1) % 2;
    StaysUntouchedExactly(s, SwapAtOnce);
    StaysUntouchedExactly(s', Fill);
  }

  lemma RunOne(s: State, actions: seq<Action>, a: Action)
    requires s.Shaped()
    ensures Run(s, actions + [a]) == Step(Run(s, actions), a)
  {
    hide Step;
    assert (actions + [a])[..|actions|] == actions;
  }

  /** Four steps take a thread into its critical section. */
  lemma FourStepsIn(s: State)
    requires s.Shaped() && s.threads == [Outside] && !s.pause
    ensures var s4 := Step(Step(Step(Step(s, Thread(0)), Thread(0)), Thread(0)), Thread(0));
            s4.threads == [Critical] && s4.reloader == s.reloader
  {
    var s1 := Step(s, Thread(0));
    assert s1.threads == [Spin];
    var s2 := Step(s1, Thread(0));
    assert s2.threads == [Increment];
    var s3 := Step(s2, Thread(0));
    assert s3.threads == [Check];
    assert Step(s3, Thread(0)).threads == [Critical];
  }

  /** Such swaps happen: a thread enters, the spare slot is filled, and nothing has changed. */
  lemma SwapsOverHappen()
    ensures exists actions :: SwapsOver(Run(Start(1), actions), SwapAtOnce)
  {
    var s, t := Start(1), Thread(0);
    assert s.threads == [Outside];
    FourStepsIn(s);
    var s4 := Step(Step(Step(Step(s, t), t), t), t);
    assert Step(s4, Fill).threads == [Critical] && Step(s4, Fill).threads[0] == Critical;
    assert SwapsOver(Step(s4, Fill), SwapAtOnce);
    assert Run(s, []) == s;
    RunOne(s, [], t);
    RunOne(s, [] + [t], t);
    RunOne(s, [] + [t] + [t], t);
    RunOne(s, [] + [t] + [t] + [t], t);
    RunOne(s, [] + [t] + [t] + [t] + [t], Fill);
    assert Run(s, [] + [t] + [t] + [t] + [t] + [Fill]) == Step(s4, Fill);
  }

  // ---- progress ----

  /** Steps a thread can still take before it spins, once pause is set. */
  function Rank(pc: Pc): nat {
    match pc
    case Spin => 0
    case Outside => 1
    case Retreat => 1
    case Check => 2
    case Critical => 2
    case Increment => 3
  }

  function RankSum(threads: seq<Pc>): nat {
    if threads == [] then 0 else RankSum(threads[..|threads| - 1]) + Rank(threads[|threads| - 1])
  }

  lemma {:induction false} RankSumAfter(threads: seq<Pc>, i: nat, pc: Pc)
    requires i < |threads|
    ensures RankSum(threads[i := pc]) == RankSum(threads) - Rank(threads[i]) + Rank(pc)
  {
    var last := |threads| - 1;
    if i < last {
      RankSumAfter(threads[..last], i, pc);
      assert threads[i := pc][..last] == threads[..last][i := pc];
    } else {
      assert threads[i := pc][..last] == threads[..last];
    }
  }

  lemma {:induction false} RankSumBound(threads: seq<Pc>)
    ensures RankSum(threads) <= 3 * |threads|
  {
    if threads != [] {
      RankSumBound(threads[..|threads| - 1]);
    }
  }

  /** While pause is set, every thread step but a spin makes the rank sum smaller. */
  lemma PausedStepsShrink(s: State, i: nat)
    requires s.Shaped() && s.pause && i < |s.threads|
    ensures var s' := Step(s, Thread(i));
            if s.threads[i] == Spin then s' == s else RankSum(s'.threads) < RankSum(s.threads)
  {
    RankSumAfter(s.threads, i, ThreadStep(s.threads[i], true).0);
  }

  /** While the reloader has to wait, some thread has a step other than spinning. */
  lemma WaitingIsNotStuck(s: State)
    requires Invariant(s) && s.inflight > 0
    ensures exists i :: 0 <= i < |s.threads| && s.threads[i] != Spin
  {
    CountWitness(s.threads);
  }

  /** The thread steps of schedule, from a state in which pause is set. */
  function Paused(s: State, schedule: seq<nat>): (s': State)
    requires s.Shaped() && s.pause
    ensures s'.pause && s'.Shaped() && |s'.threads| == |s.threads|
  {
    if schedule == [] then s else Step(Paused(s, schedule[..|schedule| - 1]), Thread(schedule[|schedule| - 1]))
  }

  /** How many of the steps of schedule are not spins. */
  function Moves(s: State, schedule: seq<nat>): nat
    requires s.Shaped() && s.pause
  {
    if schedule == [] then 0
    else
      var before := Paused(s, schedule[..|schedule| - 1]);
      var i := schedule[|schedule| - 1];
      Moves(s, schedule[..|schedule| - 1]) + if i < |s.threads| && before.threads[i] != Spin then 1 else 0
  }

  /** Once pause is set, at most three steps per thread are not spins, in any schedule. */
  lemma {:induction false} MovesAreBounded(s: State, schedule: seq<nat>)
    requires s.Shaped() && s.pause
    ensures Moves(s, schedule) + RankSum(Paused(s, schedule).threads) <= RankSum(s.threads) <= 3 * |s.threads|
  {
    hide RankSum;
    RankSumBound(s.threads);
    if schedule != [] {
      var rest, i := schedule[..|schedule| - 1], schedule[|schedule| - 1];
      MovesAreBounded(s, rest);
      if i < |s.threads| {
        PausedStepsShrink(Paused(s, rest), i);
      }
    }
  }

  function Turns(schedule: seq<nat>, i: nat): nat {
    if schedule == [] then 0
    else Turns(schedule[..|schedule| - 1], i) + if schedule[|schedule| - 1] == i then 1 else 0
  }

  lemma {:induction false} TurnsLowerRank(s: State, schedule: seq<nat>, i: nat)
    requires s.Shaped() && s.pause && i < |s.threads|
    ensures Rank(Paused(s, schedule).threads[i]) == 0
         || Rank(Paused(s, schedule).threads[i]) + Turns(schedule, i) <= Rank(s.threads[i])
  {
    if schedule != [] {
      TurnsLowerRank(s, schedule[..|schedule| - 1], i);
    }
  }

  /** Three turns for every thread after pause is set bring the count to zero: the wait ends. */
  lemma FairWaitEnds(s: State, schedule: seq<nat>)
    requires Invariant(s) && s.reloader == Waiting
    requires forall i :: 0 <= i < |s.threads| ==> Turns(schedule, i) >= 3
    ensures Paused(s, schedule).inflight == 0
    ensures Step(Paused(s, schedule), Wait).reloader == Updating
  {
    var s' := Paused(s, schedule);
    PausedKeeps(s, schedule);
    if s'.inflight > 0 {
      CountWitness(s'.threads);
      var i :| 0 <= i < |s'.threads| && Counted(s'.threads[i]);
      TurnsLowerRank(s, schedule, i);
    }
  }

  lemma {:induction false} PausedKeeps(s: State, schedule: seq<nat>)
    requires Invariant(s) && s.pause
    ensures Invariant(Paused(s, schedule)) && Paused(s, schedule).reloader == s.reloader
  {
    hide Invariant;
    InvariantIsShaped(s);
    if schedule != [] {
      PausedKeeps(s, schedule[..|schedule| - 1]);
      StepKeepsInvariant(Paused(s, schedule[..|schedule| - 1]), Thread(schedule[|schedule| - 1]));
    }
  }

  // ---- a reload takes force ----

  lemma {:induction false} PausedKeepsConfig(s: State, schedule: seq<nat>)
    requires s.Shaped() && s.pause
    ensures var s' := Paused(s, schedule);
            s'.epoch == s.epoch && s'.slots == s.slots && s'.filled == s.filled && s'.reloader == s.reloader
  {
    if schedule != [] {
      PausedKeepsConfig(s, schedule[..|schedule| - 1]);
    }
  }

  /** A spinning thread is inside three steps after the pause has ended, with what is then in force. */
  lemma SpinnerEnters(s: State, i: nat)
    requires s.Shaped() && !s.pause && i < |s.threads| && s.threads[i] == Spin
    ensures var s' := Step(Step(Step(s, Thread(i)), Thread(i)), Thread(i));
            && s'.threads[i] == Critical && s'.seen[i] == s.epoch && s'.held[i] == s.slots[s.epoch % 2]
            && s'.inflight == s.inflight + 1 && !s'.pause
            && Step(s', Thread(i)).threads[i] == Outside && Step(s', Thread(i)).inflight == s.inflight
  {
    var s1 := Step(s, Thread(i));
    assert s1.threads[i] == Increment;
    var s2 := Step(s1, Thread(i));
    assert s2.threads[i] == Check;
    var s3 := Step(s2, Thread(i));
    assert s3.threads[i] == Critical;
  }

  /**
   * A reload that waits takes force: once the spare slot is filled and every thread has had three
   * turns under pause, the update goes through, the pause ends, and each thread that then enters
   * holds the new filling.
   */
  lemma ReloadTakesForce(s: State, schedule: seq<nat>, i: nat)
    requires Invariant(s) && s.reloader == Idle && i < |s.threads|
    requires forall j :: 0 <= j < |s.threads| ==> Turns(schedule, j) >= 3
    ensures var s1 := Step(Step(s, Fill), Begin);
            && s1.pause
            && var s2 := Step(Step(Step(Paused(s1, schedule), Wait), Update), Finish);
               && s2.reloader == Idle && !s2.pause && s2.inflight == 0 && s2.epoch == s.epoch + 1
               && s2.threads[i] == Spin && s2.slots[s2.epoch % 2] == s.filled + 1
               && var s3 := Step(Step(Step(s2, Thread(i)), Thread(i)), Thread(i));
                  s3.threads[i] == Critical && s3.held[i] == s.filled + 1 && s3.seen[i] == s.epoch + 1
  {
    hide Count;
    var s1 := Step(Step(s, Fill), Begin);
    StepKeepsInvariant(s, Fill);
    StepKeepsInvariant(Step(s, Fill), Begin);
    hide Invariant;
    InvariantIsShaped(s);
    FairWaitEnds(s1, schedule);
    PausedKeepsConfig(s1, schedule);
    TurnsLowerRank(s1, schedule, i);
    var p := Paused(s1, schedule);
    assert p.threads[i] == Spin;
    var s2 := Step(Step(Step(p, Wait), Update), Finish);
    SpinnerEnters(s2, i);
  }

  /** A rejected reload leaves the configuration in force, and so does a filling; a swap at once replaces it. */
  lemma OtherReloadsEnd(s: State)
    requires s.Shaped() && s.reloader == Idle
    ensures var f := Step(s, Fill);
            && f.epoch == s.epoch && f.slots[s.epoch % 2] == s.slots[s.epoch % 2]
            && Step(f, Reject).reloader == Idle && Step(f, Reject).epoch == s.epoch
            && Step(f, SwapAtOnce).reloader == Idle && Step(f, SwapAtOnce).epoch == s.epoch + 1
            && Step(f, SwapAtOnce).slots[(s.epoch + 1) % 2] == s.filled + 1
            && Step(f, SwapAtOnce).threads == s.threads
  {
  }
}
