/**
 * When reassembly completes a packet. Reassembly says that whatever comes out was sent; here a second
 * half that is delivered at any point of any run completes its packet exactly when its own first half
 * was the last one parked in its slot and nothing has ended the wait since.
 */
module Completeness {
  import opened Bytes
  import opened FragTable
  import opened Layer2
  import opened Layer3
  import opened Layer4
  import opened PacketCrypto
  import opened Reassembly
  import opened SplitL2
  import opened SplitL3
  import opened SplitL4

  // ---- one packet ----

  function FirstOf(j: Job): seq<byte>
    requires j.Ok()
  {
    if j.layer.L2? then CutL2(j.s.pkt).value.first else Cut(j.s.pkt).value.first
  }

  function SecondOf(j: Job): seq<byte>
    requires j.Ok()
  {
    if j.layer.L2? then CutL2(j.s.pkt).value.second else Cut(j.s.pkt).value.second
  }

  /** Its first half fits a slot, and at layer 2 shows IP version 4. */
  predicate Parks(j: Job)
    requires j.Ok()
  {
    |FirstOf(j)| <= 1600 && (j.layer.L2? ==> j.s.pkt[14] / 16 == 4)
  }

  /** Its second half is too short for the layer-2 reassembler, which looks no further. */
  predicate Refused(j: Job)
    requires j.Ok()
  {
    j.layer.L2? && |SecondOf(j)| < 20
  }

  /** Its halves together are not too long. */
  predicate Joins(j: Job)
    requires j.Ok()
  {
    |FirstOf(j)| + |SecondOf(j)| <= 4096
  }

  lemma FirstExactly(aes: Aes, j: Job, e: Entry, now: u64)
    requires j.Ok() && e.Ok()
    ensures var (v, e') := j.Receive(aes, false, e, now);
            if Parks(j) then v == Pending && j.HeldBy(e') && e'.stamp == now else v == Rejected && e' == e
  {
    hide Cut;
    hide CutL2;
    hide ReceiveL2;
    hide ReceiveL3;
    hide SplitL4.Receive;
    hide HoldsL2;
    hide HoldsL3;
    hide Holds;
    hide Marked;
    match j.layer
    case L2 => ReceiveFirstL2(aes, j.s, e, now);
    case L3 => ReceiveFirstL3(aes, j.s, e, now);
    case L4 => ReceiveFirst(aes, j.s, e, now);
  }

  lemma SecondExactly(aes: Aes, j: Job, e: Entry, now: u64)
    requires j.Ok() && j.HeldBy(e)
    ensures j.Receive(aes, true, e, now)
         == if Refused(j) then (Rejected, e)
            else if !InTime(e.stamp, now) || !Joins(j) then (Rejected, e.Drop())
            else (Complete(j.Outcome()), e.Drop())
  {
    hide Cut;
    hide CutL2;
    hide ReceiveL2;
    hide ReceiveL3;
    hide SplitL4.Receive;
    hide HoldsL2;
    hide HoldsL3;
    hide Holds;
    hide Marked;
    hide Canonical;
    hide Guessed;
    InTimeExactly(e.stamp, now);
    hide Elapsed;
    hide InTime;
    HeldId(j, e);
    match j.layer
    case L2 =>
      ReceiveSecondL2(aes, j.s, e, now);
    case L3 =>
      CutParts(j.s.pkt);
      ReceiveSecondL3(aes, j.s, e, now);
      GuessedFromSlot(e, j.s.pkt, j.s.Id(), j.s.p.fakeProtocol);
    case L4 =>
      ReceiveSecond(aes, j.s, e, now);
  }

  // ---- who a slot waits for ----

  /** The packet whose first half is parked in a slot, and since when. */
  datatype Owner = Nobody | Held(k: nat, stamp: u64)

  function SlotNo(j: Job): nat {
    j.s.Id() % 512
  }

  predicate At(j: Job, layer: Layer, slot: nat) {
    j.layer == layer && SlotNo(j) == slot
  }

  /** What one step does to the slot. */
  function Next(sent: seq<Job>, layer: Layer, slot: nat, o: Owner, step: Step): Owner
    requires SentOk(sent) && (o.Held? ==> o.k < |sent|)
  {
    match step
    case Deliver(k, second, now) =>
      if k >= |sent| || !At(sent[k], layer, slot) then o
      else if !second then if Parks(sent[k]) then Held(k, now) else o
      else if o.Held? && sent[o.k].s.Id() == sent[k].s.Id() && !Refused(sent[k]) then Nobody
      else o
    case Collect(l, now) =>
      if l == layer && o.Held? && !InTime(o.stamp, now) then Nobody else o
    case _ => o
  }

  lemma SentGrows(aes: Aes, st: State, step: Step)
    requires Sane(st)
    ensures st.sent <= Apply(aes, st, step).sent
  {
    hide Job.Ok;
    hide Job.Receive;
  }

  ghost function OwnerOf(aes: Aes, steps: seq<Step>, layer: Layer, slot: nat): (o: Owner)
    ensures o.Held? ==> o.k < |Run(aes, steps).sent|
  {
    if steps == [] then Nobody
    else
      var rest, step := steps[..|steps| - 1], steps[|steps| - 1];
      SentGrows(aes, Run(aes, rest), step);
      Next(Run(aes, rest).sent, layer, slot, OwnerOf(aes, rest, layer, slot), step)
  }

  /** The slot e is as the owner says. */
  ghost predicate Tracks(sent: seq<Job>, layer: Layer, slot: nat, o: Owner, e: Entry)
    requires SentOk(sent)
  {
    && e.Ok() && (e.valid <==> o.Held?)
    && (o.Held? ==> o.k < |sent| && At(sent[o.k], layer, slot) && sent[o.k].HeldBy(e) && e.stamp == o.stamp)
  }

  lemma SameId(st: State, j: nat, k: nat)
    requires Sane(st) && SerialsOk(st) && st.next <= 0x1_0000 && j < |st.sent| && k < |st.sent|
    requires st.sent[j].s.Id() == st.sent[k].s.Id()
    ensures j == k
  {
    hide Job.Ok;
    hide TablesOk;
    assert st.sent[j].s.serial == st.sent[k].s.serial;
  }

  /** A delivery to the slot. */
  lemma DeliveryTracks(aes: Aes, st: State, k: nat, second: bool, now: u64, o: Owner, e: Entry, layer: Layer, slot: nat)
    requires Sane(st) && SerialsOk(st) && st.next <= 0x1_0000 && k < |st.sent| && At(st.sent[k], layer, slot)
    requires Tracks(st.sent, layer, slot, o, e)
    ensures Tracks(st.sent, layer, slot, Next(st.sent, layer, slot, o, Deliver(k, second, now)),
                   st.sent[k].Receive(aes, second, e, now).1)
  {
    hide Job.Ok;
    hide Job.HeldBy;
    hide Job.Receive;
    hide Job.Outcome;
    hide TablesOk;
    hide Expired;
    hide Parks;
    hide Refused;
    hide Joins;
    hide SerialsOk;
    var j := st.sent[k];
    if !second {
      FirstExactly(aes, j, e, now);
      if Parks(j) {
        HeldId(j, j.Receive(aes, false, e, now).1);
      }
    } else if o.Held? && st.sent[o.k].s.Id() == j.s.Id() {
      SameId(st, o.k, k);
      SecondExactly(aes, j, e, now);
    } else {
      if o.Held? {
        HeldId(st.sent[o.k], e);
      }
      DeliverStray(aes, j, e, now);
    }
  }

  lemma StepTracks(aes: Aes, st: State, step: Step, o: Owner, layer: Layer, slot: nat)
    requires Sane(st) && SerialsOk(st) && Apply(aes, st, step).next <= 0x1_0000 && slot < TableSize
    requires Tracks(st.sent, layer, slot, o, st.tables.At(layer)[slot])
    ensures var st' := Apply(aes, st, step);
            Tracks(st'.sent, layer, slot, Next(st.sent, layer, slot, o, step), st'.tables.At(layer)[slot])
  {
    hide Job.Ok;
    hide Job.HeldBy;
    hide Job.Receive;
    hide Parks;
    hide Refused;
    hide SerialsOk;
    var e := st.tables.At(layer)[slot];
    SentGrows(aes, st, step);
    match step {
      case Deliver(k, second, now) =>
        if k < |st.sent| && At(st.sent[k], layer, slot) {
          DeliveryTracks(aes, st, k, second, now, o, e, layer, slot);
        }
      case Collect(l, now) =>
        if l == layer && o.Held? {
          CollectTracks(st.sent, layer, slot, o, e, now);
        }
      case _ =>
    }
  }

  lemma CollectTracks(sent: seq<Job>, layer: Layer, slot: nat, o: Owner, e: Entry, now: u64)
    requires SentOk(sent) && Tracks(sent, layer, slot, o, e) && o.Held?
    ensures Tracks(sent, layer, slot, Next(sent, layer, slot, o, Collect(layer, now)), Collected(e, now))
  {
    hide Job.Ok;
    hide Job.HeldBy;
    InTimeExactly(o.stamp, now);
  }

  /** Over any run of at most 65536 ids every slot holds the first half of its owner, or nothing. */
  lemma {:induction false} RunTracks(aes: Aes, steps: seq<Step>, layer: Layer, slot: nat)
    requires Run(aes, steps).next <= 0x1_0000 && slot < TableSize
    ensures Tracks(Run(aes, steps).sent, layer, slot, OwnerOf(aes, steps, layer, slot),
                   Run(aes, steps).tables.At(layer)[slot])
  {
    hide Tracks;
    hide Next;
    hide Apply;
    hide Waiting;
    hide Job.Ok;
    if steps == [] {
      StartTracks(layer, slot);
    } else {
      var rest, step := steps[..|steps| - 1], steps[|steps| - 1];
      IdsGrow(aes, Run(aes, rest), step);
      RunTracks(aes, rest, layer, slot);
      EmittedWereSent(aes, rest);
      StepTracks(aes, Run(aes, rest), step, OwnerOf(aes, rest, layer, slot), layer, slot);
    }
  }

  lemma IdsGrow(aes: Aes, st: State, step: Step)
    requires Sane(st)
    ensures st.next <= Apply(aes, st, step).next
  {
    hide Job.Ok;
    hide Job.Receive;
  }

  lemma StartTracks(layer: Layer, slot: nat)
    requires slot < TableSize
    ensures Tracks(Initial().sent, layer, slot, Nobody, Initial().tables.At(layer)[slot])
  {
  }

  /** A second half completes its packet exactly when its slot waits for it, in time, and the halves fit together. */
  lemma OwnerCompletes(aes: Aes, steps: seq<Step>, k: nat, now: u64)
    requires Run(aes, steps).next <= 0x1_0000 && k < |Run(aes, steps).sent|
    ensures var st := Run(aes, steps);
            var j := st.sent[k];
            var o := OwnerOf(aes, steps, j.layer, SlotNo(j));
            j.Receive(aes, true, SlotOf(st, k), now).0
            == if o.Held? && o.k == k && InTime(o.stamp, now) && Joins(j) && !Refused(j)
               then Complete(j.Outcome()) else Rejected
  {
    hide Job.Ok;
    hide Job.HeldBy;
    hide Job.Receive;
    hide Job.Outcome;
    hide Refused;
    hide Joins;
    hide Run;
    hide OwnerOf;
    hide Waiting;
    var st := Run(aes, steps);
    var j, e := st.sent[k], SlotOf(st, k);
    var o := OwnerOf(aes, steps, j.layer, SlotNo(j));
    EmittedWereSent(aes, steps);
    RunTracks(aes, steps, j.layer, SlotNo(j));
    if o.Held? && st.sent[o.k].s.Id() == j.s.Id() {
      SameId(st, o.k, k);
      SecondExactly(aes, j, e, now);
    } else {
      if o.Held? {
        HeldId(st.sent[o.k], e);
      }
      DeliverStray(aes, j, e, now);
    }
  }

  // ---- in terms of the run ----

  /** The step parks another first half in the slot of j, joins j's halves or finds them stale, or sweeps j away. */
  predicate Ends(sent: seq<Job>, step: Step, k: nat, j: Job, stamp: u64)
    requires SentOk(sent) && j.Ok()
  {
    match step
    case Deliver(k', second, now) =>
      && k' < |sent| && At(sent[k'], j.layer, SlotNo(j))
      && (if second then k' == k && !Refused(j) else Parks(sent[k']))
    case Collect(l, now) => l == j.layer && !InTime(stamp, now)
    case _ => false
  }

  /** Step i of the run parked the first half of packet k at time stamp, and no later step has ended the wait. */
  ghost predicate WaitsSince(aes: Aes, steps: seq<Step>, k: nat, i: nat, stamp: u64) {
    && i < |steps| && k < |Run(aes, steps[..i]).sent|
    && steps[i] == Deliver(k, false, stamp) && Parks(Run(aes, steps[..i]).sent[k])
    && forall m :: i < m < |steps| ==>
         !Ends(Run(aes, steps[..m]).sent, steps[m], k, Run(aes, steps[..i]).sent[k], stamp)
  }

  lemma {:induction false} PrefixSent(aes: Aes, steps: seq<Step>, i: nat)
    requires i <= |steps|
    ensures Run(aes, steps[..i]).sent <= Run(aes, steps).sent
    decreases |steps| - i
  {
    hide Apply;
    if i < |steps| {
      PrefixSent(aes, steps, i + 1);
      assert steps[..i + 1][..i] == steps[..i];
      SentGrows(aes, Run(aes, steps[..i]), steps[i]);
    } else {
      assert steps[..i] == steps;
    }
  }

  /** One more step: the wait goes on unless the step ends it, and a new one begins if the step parks k. */
  lemma WaitsStep(aes: Aes, steps: seq<Step>, k: nat, i: nat, stamp: u64)
    requires steps != [] && i < |steps| - 1
    ensures var rest, step := steps[..|steps| - 1], steps[|steps| - 1];
            WaitsSince(aes, steps, k, i, stamp) <==>
              && WaitsSince(aes, rest, k, i, stamp)
              && !Ends(Run(aes, rest).sent, step, k, Run(aes, rest[..i]).sent[k], stamp)
  {
    hide Run;
    hide Ends;
    hide Parks;
    hide Job.Ok;
    var rest := steps[..|steps| - 1];
    assert forall m :: 0 <= m <= |rest| ==> steps[..m] == rest[..m];
    assert forall m :: 0 <= m < |rest| ==> steps[m] == rest[m];
    assert rest[..|rest|] == rest;
  }

  /** The owner after one more step, seen from packet k. */
  lemma OwnerStep(st: State, layer: Layer, slot: nat, o: Owner, step: Step, k: nat, stamp: u64)
    requires Sane(st) && SerialsOk(st) && st.next <= 0x1_0000 && k < |st.sent| && At(st.sent[k], layer, slot)
    requires o.Held? ==> o.k < |st.sent|
    ensures Next(st.sent, layer, slot, o, step) == Held(k, stamp) <==>
              || (o == Held(k, stamp) && !Ends(st.sent, step, k, st.sent[k], stamp))
              || (step == Deliver(k, false, stamp) && Parks(st.sent[k]))
  {
    hide Job.Ok;
    hide Parks;
    hide Refused;
    hide TablesOk;
    hide SerialsOk;
    if step.Deliver? && step.k < |st.sent| && o.Held? && st.sent[o.k].s.Id() == st.sent[step.k].s.Id() {
      SameId(st, o.k, step.k);
    }
  }

  /** The owner of a slot is the packet that waits in it, since the step that parked it. */
  lemma {:induction false} OwnerWaits(aes: Aes, steps: seq<Step>, k: nat, stamp: u64)
    requires Run(aes, steps).next <= 0x1_0000 && k < |Run(aes, steps).sent|
    ensures var j := Run(aes, steps).sent[k];
            OwnerOf(aes, steps, j.layer, SlotNo(j)) == Held(k, stamp) <==>
              exists i: nat :: WaitsSince(aes, steps, k, i, stamp)
  {
    hide WaitsSince;
    hide Next;
    hide Ends;
    hide Parks;
    hide Apply;
    hide Waiting;
    hide Job.Ok;
    hide SerialsOk;
    if steps == [] {
    } else {
      var rest, step := steps[..|steps| - 1], steps[|steps| - 1];
      var st, j := Run(aes, rest), Run(aes, steps).sent[k];
      var o := OwnerOf(aes, rest, j.layer, SlotNo(j));
      IdsGrow(aes, st, step);
      SentGrows(aes, st, step);
      if k < |st.sent| {
        OwnerWaits(aes, rest, k, stamp);
        EmittedWereSent(aes, rest);
        OwnerStep(st, j.layer, SlotNo(j), o, step, k, stamp);
        WaitsCases(aes, steps, k, stamp);
      } else {
        NotYetSent(aes, steps, k);
        NextOfOthers(st.sent, j.layer, SlotNo(j), o, step, k, stamp);
      }
    }
  }

  lemma NextOfOthers(sent: seq<Job>, layer: Layer, slot: nat, o: Owner, step: Step, k: nat, stamp: u64)
    requires SentOk(sent) && (o.Held? ==> o.k < |sent|) && k >= |sent|
    ensures Next(sent, layer, slot, o, step) != Held(k, stamp)
  {
    hide Job.Ok;
  }

  lemma NotYetSent(aes: Aes, steps: seq<Step>, k: nat)
    requires steps != [] && k >= |Run(aes, steps[..|steps| - 1]).sent|
    ensures forall i: nat, stamp :: !WaitsSince(aes, steps, k, i, stamp)
  {
    hide Run;
    hide Ends;
    hide Parks;
    hide Job.Ok;
    var rest := steps[..|steps| - 1];
    forall i: nat, stamp
      ensures !WaitsSince(aes, steps, k, i, stamp)
    {
      if i < |steps| {
        PrefixSent(aes, rest, i);
        assert rest[..i] == steps[..i];
      }
    }
  }

  lemma WaitsCases(aes: Aes, steps: seq<Step>, k: nat, stamp: u64)
    requires steps != [] && k < |Run(aes, steps[..|steps| - 1]).sent|
    ensures var rest, step := steps[..|steps| - 1], steps[|steps| - 1];
            var sent := Run(aes, rest).sent;
            (exists i: nat :: WaitsSince(aes, steps, k, i, stamp)) <==>
              || ((exists i: nat :: WaitsSince(aes, rest, k, i, stamp)) && !Ends(sent, step, k, sent[k], stamp))
              || (step == Deliver(k, false, stamp) && Parks(sent[k]))
  {
    hide Run;
    hide Ends;
    hide Parks;
    hide Job.Ok;
    hide WaitsSince;
    var rest, step := steps[..|steps| - 1], steps[|steps| - 1];
    var sent, n := Run(aes, rest).sent, |rest|;
    LastWaits(aes, steps, k, stamp);
    forall i: nat | i < n
      ensures WaitsSince(aes, steps, k, i, stamp) <==>
                WaitsSince(aes, rest, k, i, stamp) && !Ends(sent, step, k, sent[k], stamp)
    {
      WaitsStep(aes, steps, k, i, stamp);
      WaitsJob(aes, rest, k, i, stamp);
    }
    WaitsInside(aes, steps, k);
    WaitsInside(aes, rest, k);
    if i: nat :| WaitsSince(aes, rest, k, i, stamp) && !Ends(sent, step, k, sent[k], stamp) {
      assert i < n;
      assert WaitsSince(aes, steps, k, i, stamp);
    }
    if i: nat :| WaitsSince(aes, steps, k, i, stamp) {
      assert i < n || i == n;
    }
    if step == Deliver(k, false, stamp) && Parks(sent[k]) {
      assert WaitsSince(aes, steps, k, n, stamp);
    }
  }

  lemma WaitsInside(aes: Aes, steps: seq<Step>, k: nat)
    ensures forall i: nat, stamp :: WaitsSince(aes, steps, k, i, stamp) ==> i < |steps|
  {
    hide Run;
    hide Ends;
    hide Parks;
  }

  lemma WaitsJob(aes: Aes, steps: seq<Step>, k: nat, i: nat, stamp: u64)
    requires i < |steps| && k < |Run(aes, steps).sent|
    ensures WaitsSince(aes, steps, k, i, stamp) ==>
              k < |Run(aes, steps[..i]).sent| && Run(aes, steps[..i]).sent[k] == Run(aes, steps).sent[k]
  {
    hide Run;
    hide Ends;
    hide Parks;
    hide Job.Ok;
    PrefixSent(aes, steps, i);
  }

  lemma LastWaits(aes: Aes, steps: seq<Step>, k: nat, stamp: u64)
    requires steps != [] && k < |Run(aes, steps[..|steps| - 1]).sent|
    ensures var rest, step := steps[..|steps| - 1], steps[|steps| - 1];
            WaitsSince(aes, steps, k, |rest|, stamp) <==>
              step == Deliver(k, false, stamp) && Parks(Run(aes, rest).sent[k])
  {
    hide Run;
    hide Ends;
    hide Parks;
    hide Job.Ok;
  }

  /**
   * A second half delivered after any run of at most 65536 ids completes its packet if and only if
   * some step parked its first half at most the timeout ago, no step since has parked another one in
   * that slot, used it up or swept it away, and the two halves fit together. It then completes what
   * was sent.
   */
  lemma CompletesExactly(aes: Aes, steps: seq<Step>, k: nat, now: u64)
    requires Run(aes, steps).next <= 0x1_0000 && k < |Run(aes, steps).sent|
    ensures var st := Run(aes, steps);
            var v := st.sent[k].Receive(aes, true, SlotOf(st, k), now).0;
            && (v.Complete? <==>
                 && Joins(st.sent[k]) && !Refused(st.sent[k])
                 && exists i: nat, stamp :: WaitsSince(aes, steps, k, i, stamp) && InTime(stamp, now))
            && (v.Complete? ==> v.pkt == st.sent[k].Outcome())
  {
    hide Run;
    hide OwnerOf;
    hide WaitsSince;
    hide Job.Ok;
    hide Job.Receive;
    hide Job.Outcome;
    hide Joins;
    hide Refused;
    hide SlotOf;
    var j := Run(aes, steps).sent[k];
    var o := OwnerOf(aes, steps, j.layer, SlotNo(j));
    OwnerCompletes(aes, steps, k, now);
    if o.Held? {
      OwnerWaits(aes, steps, k, o.stamp);
    }
    if i: nat, stamp :| WaitsSince(aes, steps, k, i, stamp) && InTime(stamp, now) {
      OwnerWaits(aes, steps, k, stamp);
    }
  }
}
