/**
 * Safety of reassembly over every run: packets split at any layer, fragments delivered in any
 * order, lost or repeated, slots collected at any time. The three layers have a table each and
 * draw their packet ids from one counter (src/core/fragment.c, src/core/forwarder.c:50-52).
 */
module Reassembly {
  import opened Bytes
  import opened Checksum
  import opened PacketCrypto
  import opened Layer2
  import opened Layer3
  import opened Layer4
  import opened FragTable
  import opened SplitL2
  import opened SplitL3
  import opened SplitL4

  datatype Layer = L2 | L3 | L4

  /** A split packet and the layer it was split at. */
  datatype Job = Job(layer: Layer, s: Sent) {
    predicate Ok() { if layer.L2? then OkL2(s) else s.Ok() }

    /** What the receiver does with one of its fragments, given the slot of its id. */
    function Receive(aes: Aes, second: bool, e: Entry, now: u64): (r: (Verdict, Entry))
      requires Ok() && e.Ok()
      ensures r.1.Ok()
    {
      match layer
      case L2 => ReceiveL2(aes, s, second, e, now)
      case L3 => ReceiveL3(aes, s, second, e, now)
      case L4 => SplitL4.Receive(aes, s, second, e, now)
    }

    /** What it is when it comes out again: canonical, at layer 3 under the protocol it is taken for. */
    function Outcome(): seq<byte>
      requires Ok()
    {
      if layer.L3? then Guessed(s.pkt) else Canonical(s.pkt, 14)
    }

    /** The slot holds its first half under its id. */
    ghost predicate HeldBy(e: Entry)
      requires Ok()
    {
      match layer
      case L2 => HoldsL2(e, s.pkt, s.Id(), Marked(s.p, s.pkt[..14]))
      case L3 => HoldsL3(e, s.pkt, s.Id(), s.p.fakeProtocol)
      case L4 => Holds(e, s.pkt, s.Id())
    }
  }

  // ---- one delivery ----

  lemma HeldId(j: Job, e: Entry)
    requires j.Ok() && j.HeldBy(e)
    ensures e.valid && e.pktId == j.s.Id() && e.Ok()
  {
  }

  /** A first half is parked or refused. */
  lemma DeliverFirst(aes: Aes, j: Job, e: Entry, now: u64)
    requires j.Ok() && e.Ok()
    ensures var (v, e') := j.Receive(aes, false, e, now);
            !v.Complete? && (e' == e || j.HeldBy(e'))
  {
    hide Cut;
    hide CutL2;
    hide ReceiveL2;
    hide ReceiveL3;
    hide SplitL4.Receive;
    hide HoldsL2;
    hide HoldsL3;
    hide Holds;
    hide Marked;
    match j.layer
    case L2 => ReceiveFirstL2(aes, j.s, e, now);
    case L3 => ReceiveFirstL3(aes, j.s, e, now);
    case L4 => ReceiveFirst(aes, j.s, e, now);
  }

  lemma GuessedFromSlot(e: Entry, pkt: seq<byte>, id: u16, fake: byte)
    requires HoldsL3(e, pkt, id, fake)
    ensures Guessed(pkt) == PatchIpv4(pkt[ProtoAt := e.proto], 14, e.ihl, (|pkt| - 14) % 0x1_0000)
  {
    hide PatchIpv4;
    hide GuessProto;
  }

  /** A second half completes the packet of its own first half, or nothing. */
  lemma DeliverSecond(aes: Aes, j: Job, e: Entry, now: u64)
    requires j.Ok() && j.HeldBy(e)
    ensures var (v, e') := j.Receive(aes, true, e, now);
            (v.Complete? ==> v.pkt == j.Outcome()) && (e' == e || e' == e.Drop())
  {
    hide Cut;
    hide CutL2;
    hide ReceiveL2;
    hide ReceiveL3;
    hide SplitL4.Receive;
    hide HoldsL2;
    hide HoldsL3;
    hide Holds;
    hide Marked;
    hide Canonical;
    hide Guessed;
    hide PatchIpv4;
    match j.layer
    case L2 =>
      ReceiveSecondL2(aes, j.s, e, now);
    case L3 =>
      ReceiveSecondL3(aes, j.s, e, now);
      GuessedFromSlot(e, j.s.pkt, j.s.Id(), j.s.p.fakeProtocol);
    case L4 =>
      ReceiveSecond(aes, j.s, e, now);
  }

  lemma DeliverStray(aes: Aes, j: Job, e: Entry, now: u64)
    requires j.Ok() && e.Ok() && (!e.valid || e.pktId != j.s.Id())
    ensures j.Receive(aes, true, e, now) == (Rejected, e)
  {
    hide ReceiveL2;
    hide ReceiveL3;
    hide SplitL4.Receive;
    match j.layer
    case L2 => ReceiveStrayL2(aes, j.s, e, now);
    case L3 => ReceiveStrayL3(aes, j.s, e, now);
    case L4 => ReceiveStray(aes, j.s, e, now);
  }

  // ---- runs ----

  /** One table per layer. */
  datatype Tables = Tables(l2: seq<Entry>, l3: seq<Entry>, l4: seq<Entry>) {
    function At(layer: Layer): seq<Entry> {
      match layer
      case L2 => l2
      case L3 => l3
      case L4 => l4
    }

    function With(layer: Layer, t: seq<Entry>): (r: Tables)
      ensures forall l :: r.At(l) == if l == layer then t else At(l)
    {
      match layer
      case L2 => this.(l2 := t)
      case L3 => this.(l3 := t)
      case L4 => this.(l4 := t)
    }
  }

  /** Sender and receiver: ids taken, packets split so far, the tables, and what was handed up. */
  datatype State = State(next: nat, sent: seq<Job>, tables: Tables, emitted: seq<seq<byte>>)

  datatype Step =
    | SplitPacket(layer: Layer, p: Params, ctx: Ctx, counters: (u32, u32), salt: Salt, pkt: seq<byte>)
    | UseId                                    // an id taken by a split that fails later
    | Deliver(k: nat, second: bool, now: u64)  // a fragment of the k-th split packet arrives (again)
    | Collect(layer: Layer, now: u64)

  function NewTable(): (t: seq<Entry>)
    ensures TableOk(t)
  {
    seq(TableSize, _ => Empty)
  }

  function Initial(): State {
    State(0, [], Tables(NewTable(), NewTable(), NewTable()), [])
  }

  ghost predicate TableOk(t: seq<Entry>) {
    |t| == TableSize && forall i :: 0 <= i < TableSize ==> t[i].Ok()
  }

  ghost predicate TablesOk(t: Tables) {
    forall l :: TableOk(t.At(l))
  }

  ghost predicate SentOk(sent: seq<Job>) {
    forall k :: 0 <= k < |sent| ==> sent[k].Ok()
  }

  ghost predicate Sane(st: State) {
    TablesOk(st.tables) && SentOk(st.sent)
  }

  function CollectAll(t: seq<Entry>, now: u64): (r: seq<Entry>)
    requires TableOk(t)
    ensures TableOk(r) && forall i :: 0 <= i < TableSize ==> r[i] == Collected(t[i], now)
  {
    seq(TableSize, i requires 0 <= i < TableSize => Collected(t[i], now))
  }

  /** The slot of a job's id in the table of its layer. */
  function SlotOf(st: State, k: nat): (e: Entry)
    requires Sane(st) && k < |st.sent|
    ensures e.Ok()
  {
    st.tables.At(st.sent[k].layer)[st.sent[k].s.Id() % TableSize]
  }

  function Settle(st: State, k: nat, outcome: (Verdict, Entry)): (r: State)
    requires Sane(st) && k < |st.sent| && outcome.1.Ok()
    ensures Sane(r)
  {
    var j := st.sent[k];
    var t := st.tables.At(j.layer)[j.s.Id() % TableSize := outcome.1];
    var emitted := if outcome.0.Complete? then st.emitted + [outcome.0.pkt] else st.emitted;
    st.(tables := st.tables.With(j.layer, t), emitted := emitted)
  }

  function Apply(aes: Aes, st: State, step: Step): (r: State)
    requires Sane(st)
    ensures Sane(r)
  {
    match step
    case SplitPacket(layer, p, ctx, counters, salt, pkt) =>
      var j := Job(layer, Sent(p, ctx, counters, salt, pkt, st.next));
      if j.Ok() then st.(next := st.next + 1, sent := st.sent + [j]) else st
    case UseId =>
      st.(next := st.next + 1)
    case Deliver(k, second, now) =>
      if k >= |st.sent| then st else Settle(st, k, st.sent[k].Receive(aes, second, SlotOf(st, k), now))
    case Collect(layer, now) =>
      st.(tables := st.tables.With(layer, CollectAll(st.tables.At(layer), now)))
  }

  /** A waiting slot of a layer's table is the first half of a packet split there, under that packet's id. */
  ghost predicate Waiting(sent: seq<Job>, layer: Layer, e: Entry)
    requires SentOk(sent)
  {
    e.valid ==> exists k :: 0 <= k < |sent| && sent[k].layer == layer && sent[k].HeldBy(e)
  }

  /** x is what the k-th split packet comes out as. */
  ghost predicate IsSent(sent: seq<Job>, k: nat, x: seq<byte>) {
    k < |sent| && sent[k].Ok() && x == sent[k].Outcome()
  }

  ghost predicate WereSent(sent: seq<Job>, emitted: seq<seq<byte>>) {
    forall x :: x in emitted ==> exists k :: IsSent(sent, k, x)
  }

  ghost predicate SerialsOk(st: State) {
    && (forall k :: 0 <= k < |st.sent| ==> st.sent[k].s.serial < st.next)
    && (forall j, k :: 0 <= j < k < |st.sent| ==> st.sent[j].s.serial != st.sent[k].s.serial)
  }

  ghost predicate AllWaiting(sent: seq<Job>, t: Tables)
    requires SentOk(sent) && TablesOk(t)
  {
    forall l, i :: 0 <= i < TableSize ==> Waiting(sent, l, t.At(l)[i])
  }

  ghost predicate Inv(st: State) {
    Sane(st) && SerialsOk(st) && AllWaiting(st.sent, st.tables) && WereSent(st.sent, st.emitted)
  }

  lemma GrowSent(st: State, j: Job)
    requires Inv(st) && j.Ok() && j.s.serial == st.next
    ensures Inv(st.(next := st.next + 1, sent := st.sent + [j]))
  {
    hide Job.HeldBy;
    hide Job.Outcome;
    hide Job.Ok;
    var sent' := st.sent + [j];
    forall l, i | 0 <= i < TableSize && st.tables.At(l)[i].valid
      ensures Waiting(sent', l, st.tables.At(l)[i])
    {
      assert Waiting(st.sent, l, st.tables.At(l)[i]);
      var k :| 0 <= k < |st.sent| && st.sent[k].layer == l && st.sent[k].HeldBy(st.tables.At(l)[i]);
      assert sent'[k] == st.sent[k];
    }
    forall x | x in st.emitted
      ensures exists k :: IsSent(sent', k, x)
    {
      var k :| IsSent(st.sent, k, x);
      assert IsSent(sent', k, x);
    }
  }

  /** While at most 65536 ids were taken, a slot that waits for the k-th packet's id holds its first half. */
  lemma OwnFirstHalf(st: State, k: nat, e: Entry)
    requires Sane(st) && SerialsOk(st) && st.next <= 0x1_0000 && k < |st.sent|
    requires Waiting(st.sent, st.sent[k].layer, e) && e.valid && e.pktId == st.sent[k].s.Id()
    ensures st.sent[k].HeldBy(e)
  {
    hide Job.HeldBy;
    hide Job.Ok;
    hide TablesOk;
    var j :| 0 <= j < |st.sent| && st.sent[j].layer == st.sent[k].layer && st.sent[j].HeldBy(e);
    HeldId(st.sent[j], e);
    assert st.sent[j].s.serial == st.sent[k].s.serial;
  }

  /** One delivery: the slot stays explained, and what completes is the packet that was sent. */
  lemma DeliverOne(aes: Aes, st: State, k: nat, second: bool, e: Entry, now: u64)
    requires Sane(st) && SerialsOk(st) && st.next <= 0x1_0000 && k < |st.sent| && e.Ok()
    requires Waiting(st.sent, st.sent[k].layer, e)
    ensures var (v, e') := st.sent[k].Receive(aes, second, e, now);
            Waiting(st.sent, st.sent[k].layer, e') && (v.Complete? ==> v.pkt == st.sent[k].Outcome())
  {
    hide Job.HeldBy;
    hide Job.Ok;
    hide Job.Outcome;
    hide Job.Receive;
    hide TablesOk;
    var j := st.sent[k];
    if !second {
      DeliverFirst(aes, j, e, now);
    } else if e.valid && e.pktId == j.s.Id() {
      OwnFirstHalf(st, k, e);
      DeliverSecond(aes, j, e, now);
    } else {
      DeliverStray(aes, j, e, now);
    }
  }

  lemma SettleKeeps(st: State, k: nat, outcome: (Verdict, Entry))
    requires Inv(st) && k < |st.sent| && outcome.1.Ok()
    requires Waiting(st.sent, st.sent[k].layer, outcome.1)
    requires outcome.0.Complete? ==> outcome.0.pkt == st.sent[k].Outcome()
    ensures Inv(Settle(st, k, outcome))
  {
    hide Waiting;
    hide Job.Ok;
    hide Job.Outcome;
    assert outcome.0.Complete? ==> IsSent(st.sent, k, outcome.0.pkt);
  }

  /** Delivering any fragment at any time keeps the invariant while serials still differ as ids. */
  lemma DeliverKeeps(aes: Aes, st: State, k: nat, second: bool, now: u64)
    requires Inv(st) && st.next <= 0x1_0000 && k < |st.sent|
    ensures Inv(Apply(aes, st, Deliver(k, second, now)))
  {
    hide Waiting;
    hide Settle;
    hide SerialsOk;
    hide Job.Receive;
    hide Job.Outcome;
    hide Job.Ok;
    var e := SlotOf(st, k);
    DeliverOne(aes, st, k, second, e, now);
    SettleKeeps(st, k, st.sent[k].Receive(aes, second, e, now));
  }

  lemma CollectKeeps(aes: Aes, st: State, layer: Layer, now: u64)
    requires Inv(st)
    ensures Inv(Apply(aes, st, Collect(layer, now)))
  {
    hide Job.HeldBy;
    hide Job.Ok;
    hide WereSent;
    forall l, i | 0 <= i < TableSize
      ensures Waiting(st.sent, l, Collected(st.tables.At(l)[i], now))
    {
      assert Waiting(st.sent, l, st.tables.At(l)[i]);
    }
  }

  /** The state after a run of steps. */
  ghost function Run(aes: Aes, steps: seq<Step>): (r: State)
    ensures Sane(r)
  {
    if steps == [] then Initial()
    else Apply(aes, Run(aes, steps[..|steps| - 1]), steps[|steps| - 1])
  }

  /**
   * For every run that takes at most 65536 packet ids - splits at any layers, fragments lost,
   * repeated, reordered, slots collected at any time - everything the reassemblers emit is one of
   * the split packets, up to IPv4 total length and header checksum and, at layer 3, the guessed
   * protocol; halves of different packets are never joined.
   */
  lemma {:induction false} EmittedWereSent(aes: Aes, steps: seq<Step>)
    requires Run(aes, steps).next <= 0x1_0000
    ensures Inv(Run(aes, steps))
    ensures forall x :: x in Run(aes, steps).emitted ==> exists k :: IsSent(Run(aes, steps).sent, k, x)
  {
    hide Job.HeldBy;
    hide Job.Ok;
    hide Job.Outcome;
    hide Job.Receive;
    if steps == [] {
    } else {
      var before, step := steps[..|steps| - 1], steps[|steps| - 1];
      var st := Run(aes, before);
      EmittedWereSent(aes, before);
      match step
      case SplitPacket(layer, p, ctx, counters, salt, pkt) =>
        var j := Job(layer, Sent(p, ctx, counters, salt, pkt, st.next));
        if j.Ok() { GrowSent(st, j); }
      case UseId =>
      case Deliver(k, second, now) =>
        if k < |st.sent| { DeliverKeeps(aes, st, k, second, now); }
      case Collect(layer, now) =>
        CollectKeeps(aes, st, layer, now);
    }
  }
}
