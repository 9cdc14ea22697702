/**
 * The 65536 packet ids of frag_next_pkt_id are exactly what reassembly can do with: one more,
 * and some run hands up a packet that nobody sent.
 */
module IdBound {
  import opened Bytes
  import opened Checksum
  import opened PacketCrypto
  import opened Layer4
  import opened FragTable
  import opened Reassembly
  import opened SplitL4

  const Ids := 0x1_0000

  /** Every run that takes at most n packet ids emits only what was sent. */
  ghost predicate SafeUpTo(aes: Aes, n: nat) {
    forall steps :: Run(aes, steps).next <= n ==> WereSent(Run(aes, steps).sent, Run(aes, steps).emitted)
  }

  /** Two packets whose halves differ behind headers of one length; the join of a's first and b's second half fits. */
  ghost predicate Mixable(a: Sent, b: Sent) {
    && a.Ok() && b.Ok() && Ihl(a.pkt, 14) == Ihl(b.pkt, 14)
    && |Cut(a.pkt).value.first| <= DataSize && |Cut(a.pkt).value.first| + |Cut(b.pkt).value.second| <= JoinLimit
    && |Cut(a.pkt).value.first| == |Cut(b.pkt).value.first|
    && Cut(a.pkt).value.first != Cut(b.pkt).value.first && Cut(a.pkt).value.second != Cut(b.pkt).value.second
  }

  // ---- what the join of two packets' halves looks like ----

  lemma CanonicalTail(pkt: seq<byte>)
    requires Cut(pkt).Some?
    ensures var h := Cut(pkt).value;
            |Canonical(pkt, 14)| == |pkt| && 14 + Ihl(pkt, 14) <= |pkt|
            && Canonical(pkt, 14)[14 + Ihl(pkt, 14)..] == h.first + h.second
  {
    hide PatchIpv4;
    hide Cut;
    CutParts(pkt);
    var head := 14 + Ihl(pkt, 14);
    assert pkt == pkt[..head] + pkt[head..];
    PatchPrefix(pkt[..head], pkt[head..], 14, Ihl(pkt, 14), (|pkt| - 14) % 0x1_0000);
  }

  /** The second half of b joins the first half of a as it would its own. */
  lemma Mixed(aes: Aes, a: Sent, b: Sent, e: Entry, now: u64)
    requires Mixable(a, b) && a.Id() == b.Id() && Holds(e, a.pkt, a.Id()) && !Expired(e, now)
    ensures var v := SplitL4.Receive(aes, b, true, e, now).0;
            && v.Complete? && 14 + Ihl(a.pkt, 14) <= |v.pkt|
            && v.pkt[14 + Ihl(a.pkt, 14)..] == Cut(a.pkt).value.first + Cut(b.pkt).value.second
  {
    hide Cut;
    hide SplitL4.Receive;
    hide JoinedL4;
    hide PatchIpv4;
    hide RestoredHdr;
    hide TransportHdrSize;
    hide Expired;
    hide Ihl;
    var first, second := Cut(a.pkt).value.first, Cut(b.pkt).value.second;
    ReceiveOnto(aes, b, e, now);
    CutKeepsHeader(a.pkt);
    JoinOwnL4(e, first, second);
    PatchPrefix(e.eth + e.ip[..e.ihl], first + second, 14, e.ihl, (e.ihl + |first| + |second|) % 0x1_0000);
  }

  /** Octets that are neither packet's. */
  lemma MixIsNeither(a: Sent, b: Sent, x: seq<byte>)
    requires Mixable(a, b) && 14 + Ihl(a.pkt, 14) <= |x|
    requires x[14 + Ihl(a.pkt, 14)..] == Cut(a.pkt).value.first + Cut(b.pkt).value.second
    ensures x != Canonical(a.pkt, 14) && x != Canonical(b.pkt, 14)
  {
    hide Cut;
    hide Canonical;
    hide Ihl;
    var ha, hb := Cut(a.pkt).value, Cut(b.pkt).value;
    CanonicalTail(a.pkt);
    CanonicalTail(b.pkt);
    var mix := ha.first + hb.second;
    assert mix[..|ha.first|] == ha.first && mix[|ha.first|..] == hb.second;
    assert (ha.first + ha.second)[|ha.first|..] == ha.second;
    assert (hb.first + hb.second)[..|ha.first|] == hb.first;
  }

  // ---- the run ----

  function Uses(n: nat): seq<Step> {
    seq(n, _ => UseId)
  }

  function Split(s: Sent): Step {
    SplitPacket(L4, s.p, s.ctx, s.counters, s.salt, s.pkt)
  }

  lemma RunOneMore(aes: Aes, steps: seq<Step>, step: Step)
    ensures Run(aes, steps + [step]) == Apply(aes, Run(aes, steps), step)
  {
    hide Apply;
    assert (steps + [step])[..|steps|] == steps;
  }

  lemma {:induction false} RunUses(aes: Aes, steps: seq<Step>, n: nat)
    ensures Run(aes, steps + Uses(n)) == Run(aes, steps).(next := Run(aes, steps).next + n)
  {
    hide Run;
    if n == 0 {
      assert steps + Uses(0) == steps;
    } else {
      RunUses(aes, steps, n - 1);
      assert steps + Uses(n) == (steps + Uses(n - 1)) + [UseId];
      RunOneMore(aes, steps + Uses(n - 1), UseId);
    }
  }

  /** All ids are taken between two splits, which so share one. */
  function SplitsSharingId(a: Sent, b: Sent): seq<Step> {
    ([Split(a)] + Uses(Ids - 1)) + [Split(b)]
  }

  lemma SplitsShareId(aes: Aes, a: Sent, b: Sent)
    requires a.Ok() && b.Ok() && a.serial == 0 && b.serial == Ids
    ensures Run(aes, SplitsSharingId(a, b)) == State(Ids + 1, [Job(L4, a), Job(L4, b)], Initial().tables, [])
  {
    hide Cut;
    hide Run;
    RunOfNone(aes);
    RunOneMore(aes, [], Split(a));
    assert [] + [Split(a)] == [Split(a)];
    RunUses(aes, [Split(a)], Ids - 1);
    RunOneMore(aes, [Split(a)] + Uses(Ids - 1), Split(b));
  }

  lemma RunOfNone(aes: Aes)
    ensures Run(aes, []) == Initial()
  {
  }

  /** The first half of the 0th packet arrives, then the second half of the 1st. */
  function MixingRun(a: Sent, b: Sent, now: u64): seq<Step> {
    SplitsSharingId(a, b) + [Deliver(0, false, now)] + [Deliver(1, true, now)]
  }

  /** The slot both packets share: a's first half comes in, then b's second. */
  lemma MixingDelivery(aes: Aes, a: Sent, b: Sent, st: State, now: u64)
    requires Mixable(a, b) && a.Id() == b.Id() && Sane(st) && st.sent == [Job(L4, a), Job(L4, b)] && st.emitted == []
    ensures var after := Apply(aes, Apply(aes, st, Deliver(0, false, now)), Deliver(1, true, now));
            && after.next == st.next && after.sent == st.sent
            && |after.emitted| == 1 && var x := after.emitted[0];
               14 + Ihl(a.pkt, 14) <= |x|
               && x[14 + Ihl(a.pkt, 14)..] == Cut(a.pkt).value.first + Cut(b.pkt).value.second
  {
    hide Cut;
    hide SplitL4.Receive;
    hide Holds;
    hide Ihl;
    var e := SlotOf(st, 0);
    ReceiveFirst(aes, a, e, now);
    Mixed(aes, a, b, SplitL4.Receive(aes, a, false, e, now).1, now);
  }

  /** With one id too many, two packets of different content come out as one that was never sent. */
  lemma OneIdTooMany(aes: Aes, a: Sent, b: Sent, now: u64)
    requires Mixable(a, b) && a.serial == 0 && b.serial == Ids
    ensures var st := Run(aes, MixingRun(a, b, now));
            st.next == Ids + 1 && |st.emitted| == 1 && forall k :: !IsSent(st.sent, k, st.emitted[0])
  {
    hide Cut;
    hide Canonical;
    hide Ihl;
    hide Run;
    hide Apply;
    var st := Run(aes, SplitsSharingId(a, b));
    SplitsShareId(aes, a, b);
    RunOneMore(aes, SplitsSharingId(a, b), Deliver(0, false, now));
    RunOneMore(aes, SplitsSharingId(a, b) + [Deliver(0, false, now)], Deliver(1, true, now));
    MixingDelivery(aes, a, b, st, now);
    MixIsNeither(a, b, Run(aes, MixingRun(a, b, now)).emitted[0]);
  }

  // ---- two such packets ----

  /** A UDP packet with two octets of data. */
  function Datagram(x: byte): (pkt: seq<byte>) {
    seq(44, i => if i == 12 then 8 else if i == 14 then 0x45 else if i == 23 then 17 else if i >= 42 then x else 0)
  }

  lemma DatagramIsCut(x: byte)
    ensures var cut := Cut(Datagram(x));
            && cut.Some? && Ihl(Datagram(x), 14) == 20 && |cut.value.first| == 9 && cut.value.first[8] == x
            && cut.value.second == [x]
  {
  }

  function Sample(x: byte, serial: nat): Sent {
    var key: Key := seq(32, _ => 0);
    Sent(Params(0, 12, 128, 1, 0, 0), Ctx(key, key, key, key, true), (0, 0), seq(16, _ => 0), Datagram(x), serial)
  }

  /** Runs are safe up to n packet ids exactly for n up to 65536. */
  lemma SafeExactly(aes: Aes, n: nat)
    ensures SafeUpTo(aes, n) <==> n <= Ids
  {
    hide Run;
    if n <= Ids {
      forall steps | Run(aes, steps).next <= n
        ensures WereSent(Run(aes, steps).sent, Run(aes, steps).emitted)
      {
        EmittedWereSent(aes, steps);
      }
    } else {
      var a, b := Sample(1, 0), Sample(2, Ids);
      DatagramIsCut(1);
      DatagramIsCut(2);
      OneIdTooMany(aes, a, b, 0);
      var st := Run(aes, MixingRun(a, b, 0));
      assert st.emitted[0] in st.emitted;
    }
  }
}
