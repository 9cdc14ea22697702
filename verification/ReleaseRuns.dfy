/**
 * Which runs of releases in three steps conserve the receive frames: exactly those in which every
 * reserve finds room, every write spares what the kernel may already see, and every submit exposes
 * the frame of the one who submits.
 */
module ReleaseRuns {
  import opened Bytes
  import opened Pipeline
  import opened ReleaseSteps
  import opened Remainders
  import opened XskRing

  /** What each step of a release has to do; all other steps are harmless. */
  ghost predicate Keeps(s: Fine, a: FineAction)
    requires Shape(s)
  {
    Enabled(s, a) ==>
      match a
      case Reserve(who) =>
        var r := s.rings[RingOf(s, who).value];
        r.reserved < r.consumed + |r.slots|
      case Write(who) =>
        Spares(s.rings[RingOf(s, who).value], s.busy[who].k)
      case Submit(who) =>
        Some(Exposed(s, who)) == HeldBy(s.rest, who)
      case _ => true
  }

  /** Place k of the ring holds no entry that is submitted and not consumed. */
  ghost predicate Spares(r: Ring, k: nat)
    requires |r.slots| > 0
  {
    forall x :: r.consumed <= x < r.submitted ==> Mod(x, |r.slots|) != Mod(k, |r.slots|)
  }

  lemma FullReserveLoses(s: Fine, who: Who)
    requires Shape(s) && Conserved(View(s)) && Enabled(s, Reserve(who)) && !Keeps(s, Reserve(who))
    ensures !Conserved(View(ReleaseSteps.Step(s, Reserve(who))))
  {
    hide Places;
    hide AtWorkers;
    hide Between;
    var v, f := View(s), HeldBy(s.rest, who).value;
    assert HeldBy(v, who) == HeldBy(s.rest, who);
    HeldIsPlaced(v, who);
    DropPlaces(v, who, f);
    assert View(ReleaseSteps.Step(s, Reserve(who))) == Drop(v, who);
  }

  lemma SparedEntries(slots: seq<Frame>, c: nat, p: nat, k: nat, f: Frame)
    requires |slots| > 0 && c <= p
    ensures (forall x :: c <= x < p ==> Mod(x, |slots|) != Mod(k, |slots|)) ==>
              Between(slots[Mod(k, |slots|) := f], c, p) == Between(slots, c, p)
    ensures !(forall x :: c <= x < p ==> Mod(x, |slots|) != Mod(k, |slots|)) ==>
              f in Between(slots[Mod(k, |slots|) := f], c, p)
  {
    hide Mod;
    if x :| c <= x < p && Mod(x, |slots|) == Mod(k, |slots|) {
      assert Between(slots[Mod(k, |slots|) := f], c, p)[x - c] == f;
    } else {
      forall i | 0 <= i < p - c
        ensures Between(slots[Mod(k, |slots|) := f], c, p)[i] == Between(slots, c, p)[i]
      {
        assert Mod(c + i, |slots|) != Mod(k, |slots|);
      }
    }
  }

  lemma WriteView(s: Fine, who: Who)
    requires Shape(s) && Enabled(s, Write(who))
    ensures var q, k, f := RingOf(s, who).value, s.busy[who].k, HeldBy(s.rest, who).value;
            var r := s.rings[q];
            && View(ReleaseSteps.Step(s, Write(who)))
               == View(s).(fill := View(s).fill[q := Between(r.slots[Mod(k, |r.slots|) := f], r.consumed, r.submitted)])
            && View(s).fill[q] == Between(r.slots, r.consumed, r.submitted)
  {
    hide Between;
    hide Mod;
    var q := RingOf(s, who).value;
    var r := s.rings[q];
    ShownAfter(s.rings, q, r.(slots := r.slots[Mod(s.busy[who].k, |r.slots|) := HeldBy(s.rest, who).value]));
  }

  /** A write conserves the frames exactly when it spares what is visible. */
  lemma WriteConservesExactly(s: Fine, who: Who)
    requires Shape(s) && Conserved(View(s)) && Enabled(s, Write(who))
    ensures Conserved(View(ReleaseSteps.Step(s, Write(who)))) <==> Keeps(s, Write(who))
  {
    hide Conserved;
    hide Between;
    hide Mod;
    hide View;
    hide ReleaseSteps.Step;
    var q, k, f := RingOf(s, who).value, s.busy[who].k, HeldBy(s.rest, who).value;
    var r := s.rings[q];
    var v, v' := View(s), View(ReleaseSteps.Step(s, Write(who)));
    WriteView(s, who);
    SparedEntries(r.slots, r.consumed, r.submitted, k, f);
    if Spares(r, k) {
      assert v.fill[q := v.fill[q]] == v.fill;
      assert v' == v;
    } else if Conserved(v') {
      ViewHolds(s, who);
      HeldIsElsewhere(v', who);
      assert false;
    }
  }

  lemma ViewHolds(s: Fine, who: Who)
    requires Shape(s) && Enabled(s, Write(who))
    ensures HeldBy(View(ReleaseSteps.Step(s, Write(who))), who) == HeldBy(s.rest, who)
    ensures |View(ReleaseSteps.Step(s, Write(who))).sizes| == |s.rings|
  {
    hide Between;
    hide Mod;
  }

  /** From a state with all frames in place, each step keeps them so exactly under its condition. */
  lemma StepConservesExactly(s: Fine, a: FineAction)
    requires Shape(s) && Conserved(View(s))
    ensures Conserved(View(ReleaseSteps.Step(s, a))) <==> Keeps(s, a)
  {
    hide Conserved;
    hide View;
    hide Spares;
    hide Exposed;
    if !Enabled(s, a) {
    } else {
      match a {
        case Other(b) => OtherConserves(s, b);
        case Begin(who) => QuietStep(s, a);
        case Reserve(who) =>
          if Keeps(s, a) {
            QuietStep(s, a);
          } else {
            FullReserveLoses(s, who);
          }
        case Write(who) => WriteConservesExactly(s, who);
        case Submit(who) => SubmitConservesExactly(s, who);
      }
    }
  }

  /** Every state of the run has all frames in place. */
  ghost predicate AlwaysConserved(s: Fine, actions: seq<FineAction>)
    requires Shape(s)
  {
    Conserved(View(ReleaseSteps.Run(s, actions))) &&
    (actions == [] || AlwaysConserved(s, actions[..|actions| - 1]))
  }

  ghost predicate AlwaysKeeps(s: Fine, actions: seq<FineAction>)
    requires Shape(s)
  {
    actions == [] ||
    var before := actions[..|actions| - 1];
    AlwaysKeeps(s, before) && Keeps(ReleaseSteps.Run(s, before), actions[|actions| - 1])
  }

  /**
   * A run conserves the frames throughout if and only if each of its steps meets its condition,
   * whatever releases overlap.
   */
  lemma {:induction false} RunConservesExactly(sizes: seq<nat>, workers: nat, actions: seq<FineAction>)
    requires AllPositive(sizes)
    ensures AlwaysConserved(FineStart(sizes, workers), actions) <==> AlwaysKeeps(FineStart(sizes, workers), actions)
  {
    hide Conserved;
    hide View;
    hide Keeps;
    hide ReleaseSteps.Step;
    var s := FineStart(sizes, workers);
    if actions == [] {
      StartIsOrderly(sizes, workers);
      StartIsConserved(sizes, workers);
    } else {
      var before := actions[..|actions| - 1];
      RunConservesExactly(sizes, workers, before);
      if AlwaysConserved(s, before) {
        ConservedAtEnd(s, before);
        StepConservesExactly(ReleaseSteps.Run(s, before), actions[|actions| - 1]);
      }
    }
  }

  lemma ConservedAtEnd(s: Fine, actions: seq<FineAction>)
    requires Shape(s) && AlwaysConserved(s, actions)
    ensures Conserved(View(ReleaseSteps.Run(s, actions)))
  {
    hide Conserved;
    hide View;
    hide ReleaseSteps.Run;
  }

  // ---- a release that nobody disturbs ----

  /** With no reservation open and a place free, the four steps of one release are the release in one step. */
  lemma ReleaseAlone(s: Fine, who: Who)
    requires Shape(s) && Enabled(s, Begin(who))
    requires var r := s.rings[RingOf(s, who).value];
             r.reserved == r.submitted < r.consumed + |r.slots|
    ensures var s1 := ReleaseSteps.Step(s, Begin(who));
            var s2 := ReleaseSteps.Step(s1, Reserve(who));
            var s3 := ReleaseSteps.Step(s2, Write(who));
            var s4 := ReleaseSteps.Step(s3, Submit(who));
            && View(s3) == View(s) && s4.busy == s.busy
            && View(s4) == Pipeline.Step(View(s), match who case Thread(q) => GiveBack(q) case Worker(w) => Done(w))
  {
    hide Between;
    hide Mod;
    hide View;
    var s1 := ReleaseSteps.Step(s, Begin(who));
    QuietStep(s, Begin(who));
    var s2 := ReleaseSteps.Step(s1, Reserve(who));
    QuietStep(s1, Reserve(who));
    assert s2.busy[who] == Reserved(s.rings[RingOf(s, who).value].submitted);
    var s3 := ReleaseSteps.Step(s2, Write(who));
    QuietStep(s2, Write(who));
    assert Some(Exposed(s3, who)) == HeldBy(s3.rest, who);
    OwnSubmitIsRelease(s3, who);
  }
}
