/** frag_split_and_encrypt and frag_try_reassemble: splitting and reassembly at layer 3. */
module SplitL3 {
  import opened Bytes
  import opened Checksum
  import opened PacketCrypto
  import opened Layer4
  import opened Layer3
  import opened FragTable
  import opened SplitL4
  import opened Layer3Packet

  /** The protocol a decrypted first half is taken for: TCP if its octets allow it, else UDP. */
  function GuessProto(seg: seq<byte>): (r: Option<byte>)
    ensures r == None || r == Some(6) || r == Some(17)
  {
    if TransportHdrSize(seg, 6).Some? then Some(6)
    else if TransportHdrSize(seg, 17).Some? then Some(17)
    else None
  }

  function JoinedL3(e: Entry, half: seq<byte>): seq<byte>
    requires e.Ok()
  {
    if e.valid then Joined(e, Headers(e)[ProtoAt := e.proto], RestoredHdr(e.Plain(), e.proto), half) else []
  }

  /** frag_try_reassemble on the slot of the packet id. */
  function ReassembleL3(e: Entry, pkt: seq<byte>, id: u16, index: byte, now: u64): (r: (Verdict, Entry))
    requires e.Ok()
    ensures r.1.Ok()
  {
    if !Ipv4At14(pkt) then (Rejected, e)
    else
      var head := 14 + Ihl(pkt, 14);
      if index == 0 then
        match GuessProto(pkt[head..])
        case None => (Rejected, e)
        case Some(proto) => StoreStep(e, id, pkt[..14], pkt[14..head], proto, pkt[head..], now)
      else if index == 1 then JoinStep(e, Admit(e, id, |pkt| - head, 0, now), JoinedL3(e, pkt[head..]))
      else (Rejected, e)
  }

  /** frag_try_reassemble: 0 pending, 1 complete in out[..len], -1 otherwise. */
  method TryReassembleL3(t: Table, packet: array<byte>, n: nat, id: u16, index: byte, now: u64, out: array<byte>)
    returns (r: int, len: nat)
    requires t.Valid() && n <= packet.Length && out != packet && out.Length >= MaxJoined
    modifies t.entries, out
    ensures t.Valid()
    ensures t.Settled(ReassembleL3(old(t.entries[id % TableSize]), old(packet[..n]), id, index, now), id % TableSize,
                      old(t.entries[..]), r, len, out)
  {
    hide Joined;
    hide StoreStep;
    hide RestoredHdr;
    hide Headers;
    hide Ihl;
    hide GuessProto;
    r, len := -1, 0;
    var pkt := packet[..n];
    if !Ipv4At14(pkt) {
      return;
    }
    var head := 14 + Ihl(pkt, 14);
    var slot := id % TableSize;
    if index == 0 {
      var proto := GuessProto(pkt[head..]);
      if proto.Some? {
        r := t.StoreHalf(slot, id, pkt[..14], pkt[14..head], proto.value, pkt[head..], now);
      }
    } else if index == 1 {
      var e := t.entries[slot];
      if e.valid {
        var headers := Headers(e)[ProtoAt := e.proto];
        r, len := t.JoinHalf(slot, id, headers, RestoredHdr(e.Plain(), e.proto), pkt[head..], 0, now, out);
      }
    }
  }

  // ---- one packet, end to end ----

  /** The packet's Ethernet and IPv4 header. */
  function Head(pkt: seq<byte>): (h: seq<byte>)
    requires Cut(pkt).Some?
    ensures |h| == 14 + Ihl(pkt, 14)
  {
    pkt[..14 + Ihl(pkt, 14)]
  }

  lemma HeadShape(pkt: seq<byte>)
    requires Cut(pkt).Some?
    ensures Ipv4At14(Head(pkt)) && Ihl(Head(pkt), 14) == Ihl(pkt, 14) && |Head(pkt)| == 14 + Ihl(pkt, 14)
    ensures Ipv4At14(pkt)
  {
  }

  /** A wire fragment: the halves are those of the L4 cut, but the ports do not travel in clear. */
  function WireL3(aes: Aes, s: Sent, second: bool): seq<byte>
    requires s.Ok()
  {
    var h := Cut(s.pkt).value;
    var nonce := Nonce(if second then s.counters.1 else s.counters.0, s.salt, s.p.nonceSize);
    WireFragmentL3(aes, s.p, s.ctx.current, nonce, Head(s.pkt), Ihl(s.pkt, 14),
                   if second then h.second else h.first, s.Id(), if second then 1 else 0)
  }

  /** Decrypt a wire fragment of s, then reassemble it in its slot. */
  function ReceiveL3(aes: Aes, s: Sent, second: bool, e: Entry, now: u64): (r: (Verdict, Entry))
    requires s.Ok() && e.Ok()
    ensures r.1.Ok()
  {
    match DecryptFragmentL3(aes, s.p, s.ctx, WireL3(aes, s, second))
    case None => (Rejected, e)
    case Some(f) => ReassembleL3(e, f.pkt, f.id, f.index, now)
  }

  /** The slot holds the first half of pkt under id, taken for the guessed protocol. */
  ghost predicate HoldsL3(e: Entry, pkt: seq<byte>, id: u16, fake: byte) {
    && Cut(pkt).Some? && e.Ok() && e.valid && e.pktId == id && e.ihl == Ihl(pkt, 14)
    && e.Plain() == Cut(pkt).value.first && GuessProto(e.Plain()) == Some(e.proto)
    && Headers(e) == PatchIpv4(Head(pkt)[ProtoAt := fake], 14, e.ihl, (e.ihl + |Cut(pkt).value.first|) % 0x1_0000)
  }

  /** A decrypted half as the reassembler sees it. */
  lemma HalfShapeL3(head: seq<byte>, plain: seq<byte>)
    requires Ipv4At14(head) && |head| == 14 + Ihl(head, 14)
    ensures var f := RejoinL3(head, plain);
            && Ipv4At14(f) && Ihl(f, 14) == Ihl(head, 14) && f[|head|..] == plain
            && f[..14] + f[14..|head|] == PatchIpv4(head, 14, Ihl(head, 14), (Ihl(head, 14) + |plain|) % 0x1_0000)
  {
    hide PatchIpv4;
    var total := (Ihl(head, 14) + |plain|) % 0x1_0000;
    var patched := PatchIpv4(head, 14, Ihl(head, 14), total);
    PatchOthers(head, 14, Ihl(head, 14), total, 12);
    PatchOthers(head, 14, Ihl(head, 14), total, 13);
    PatchOthers(head, 14, Ihl(head, 14), total, 14);
    var f := RejoinL3(head, plain);
    assert f == patched + plain;
    assert f[..|head|] == patched && f[..14] + f[14..|head|] == f[..|head|];
  }

  /** Decryption and shape of either fragment. */
  lemma WireDecryptsL3(aes: Aes, s: Sent, second: bool)
    requires s.Ok()
    ensures var h := Cut(s.pkt).value;
            var marked := Head(s.pkt)[ProtoAt := s.p.fakeProtocol];
            && Ipv4At14(marked) && |marked| == 14 + Ihl(marked, 14) && Ihl(marked, 14) == Ihl(s.pkt, 14)
            && DecryptFragmentL3(aes, s.p, s.ctx, WireL3(aes, s, second))
               == Some(Fragment(RejoinL3(marked, if second then h.second else h.first), s.Id(),
                                if second then 1 else 0))
  {
    hide Cut;
    hide WireFragmentL3;
    hide DecryptFragmentL3;
    hide RejoinL3;
    hide Head;
    HeadShape(s.pkt);
    var h := Cut(s.pkt).value;
    var nonce := Nonce(if second then s.counters.1 else s.counters.0, s.salt, s.p.nonceSize);
    FragmentRoundTripL3(aes, s.p, s.ctx, nonce, Head(s.pkt),
                        if second then h.second else h.first, s.Id(), if second then 1 else 0);
  }

  /** Reassembly of a fragment of known shape. */
  lemma ReassembleShapeL3(e: Entry, f: seq<byte>, ihl: nat, half: seq<byte>, id: u16, now: u64)
    requires e.Ok() && Ipv4At14(f) && Ihl(f, 14) == ihl && f[14 + ihl..] == half
    ensures GuessProto(half).Some? ==>
      ReassembleL3(e, f, id, 0, now) == StoreStep(e, id, f[..14], f[14..14 + ihl], GuessProto(half).value, half, now)
    ensures ReassembleL3(e, f, id, 1, now) == JoinStep(e, Admit(e, id, |half|, 0, now), JoinedL3(e, half))
  {
    hide StoreStep;
    hide JoinStep;
    hide Admit;
    hide JoinedL3;
    hide GuessProto;
  }

  lemma StoreHoldsL3(e: Entry, pkt: seq<byte>, id: u16, fake: byte, eth: seq<byte>, ip: seq<byte>, proto: byte,
                     now: u64)
    requires e.Ok() && Cut(pkt).Some? && |eth| == 14 && |ip| == Ihl(pkt, 14)
    requires eth + ip == PatchIpv4(Head(pkt)[ProtoAt := fake], 14, Ihl(pkt, 14),
                                   (Ihl(pkt, 14) + |Cut(pkt).value.first|) % 0x1_0000)
    requires GuessProto(Cut(pkt).value.first) == Some(proto)
    ensures var (v, e') := StoreStep(e, id, eth, ip, proto, Cut(pkt).value.first, now);
            if |Cut(pkt).value.first| <= DataSize then v == Pending && HoldsL3(e', pkt, id, fake) && e'.stamp == now
            else v == Rejected && e' == e
  {
    hide Cut;
    hide PatchIpv4;
    hide GuessProto;
    hide Ihl;
    hide Head;
  }

  lemma GuessedFirst(pkt: seq<byte>)
    requires Cut(pkt).Some?
    ensures GuessProto(Cut(pkt).value.first).Some?
  {
    hide Cut;
    CutKeepsHeader(pkt);
  }

  /** The first half always parses as TCP or UDP, so it is parked if it fits. */
  lemma ReceiveFirstL3(aes: Aes, s: Sent, e: Entry, now: u64)
    requires s.Ok() && e.Ok()
    ensures var (v, e') := ReceiveL3(aes, s, false, e, now);
            if |Cut(s.pkt).value.first| <= DataSize
            then v == Pending && HoldsL3(e', s.pkt, s.Id(), s.p.fakeProtocol) && e'.stamp == now
            else v == Rejected && e' == e
  {
    hide Cut;
    hide DecryptFragmentL3;
    hide WireL3;
    hide RejoinL3;
    hide Ihl;
    hide Head;
    hide PatchIpv4;
    hide Ipv4At14;
    hide ReassembleL3;
    hide StoreStep;
    hide HoldsL3;
    hide GuessProto;
    GuessedFirst(s.pkt);
    var first := Cut(s.pkt).value.first;
    var marked := Head(s.pkt)[ProtoAt := s.p.fakeProtocol];
    WireDecryptsL3(aes, s, false);
    HalfShapeL3(marked, first);
    var f := RejoinL3(marked, first);
    var ihl := Ihl(s.pkt, 14);
    ReassembleShapeL3(e, f, ihl, first, s.Id(), now);
    StoreHoldsL3(e, s.pkt, s.Id(), s.p.fakeProtocol, f[..14], f[14..14 + ihl], GuessProto(first).value, now);
  }

  /** What any slot does with a second half. */
  lemma ReceiveOntoL3(aes: Aes, s: Sent, e: Entry, now: u64)
    requires s.Ok() && e.Ok()
    ensures var half := Cut(s.pkt).value.second;
            ReceiveL3(aes, s, true, e, now) == JoinStep(e, Admit(e, s.Id(), |half|, 0, now), JoinedL3(e, half))
  {
    hide Cut;
    hide DecryptFragmentL3;
    hide WireL3;
    hide RejoinL3;
    hide Ihl;
    hide Head;
    hide PatchIpv4;
    hide Ipv4At14;
    hide ReassembleL3;
    hide JoinedL3;
    hide GuessProto;
    hide JoinStep;
    hide Admit;
    var second := Cut(s.pkt).value.second;
    var marked := Head(s.pkt)[ProtoAt := s.p.fakeProtocol];
    WireDecryptsL3(aes, s, true);
    HalfShapeL3(marked, second);
    ReassembleShapeL3(e, RejoinL3(marked, second), Ihl(s.pkt, 14), second, s.Id(), now);
  }

  /** A second half never completes against a slot that is empty or waits for another id. */
  lemma ReceiveStrayL3(aes: Aes, s: Sent, e: Entry, now: u64)
    requires s.Ok() && e.Ok() && (!e.valid || e.pktId != s.Id())
    ensures ReceiveL3(aes, s, true, e, now) == (Rejected, e)
  {
    hide Cut;
    hide ReceiveL3;
    hide JoinedL3;
    ReceiveOntoL3(aes, s, e, now);
  }

  /** The packet with the protocol number it is taken for. */
  function Guessed(pkt: seq<byte>): seq<byte>
    requires Cut(pkt).Some?
  {
    match GuessProto(Cut(pkt).value.first)
    case None => pkt
    case Some(proto) => Canonical(pkt[ProtoAt := proto], 14)
  }

  /** The second half completes the packet, with the guessed protocol number. */
  lemma ReceiveSecondL3(aes: Aes, s: Sent, e: Entry, now: u64)
    requires s.Ok() && HoldsL3(e, s.pkt, s.Id(), s.p.fakeProtocol)
    ensures ReceiveL3(aes, s, true, e, now)
         == if Expired(e, now) || |s.pkt| > 14 + Ihl(s.pkt, 14) + JoinLimit then (Rejected, e.Drop())
            else (Complete(PatchIpv4(s.pkt[ProtoAt := e.proto], 14, e.ihl, (|s.pkt| - 14) % 0x1_0000)), e.Drop())
  {
    hide Cut;
    hide ReceiveL3;
    hide Ihl;
    hide Head;
    hide PatchIpv4;
    hide JoinedL3;
    hide Front;
    hide Expired;
    hide GuessProto;
    CutParts(s.pkt);
    ReceiveOntoL3(aes, s, e, now);
    OwnJoinL3(e, s.pkt, s.Id(), s.p.fakeProtocol);
  }

  lemma OwnJoinL3(e: Entry, pkt: seq<byte>, id: u16, fake: byte)
    requires HoldsL3(e, pkt, id, fake)
    ensures JoinedL3(e, Cut(pkt).value.second) == PatchIpv4(pkt[ProtoAt := e.proto], 14, e.ihl, (|pkt| - 14) % 0x1_0000)
  {
    hide Cut;
    hide PatchIpv4;
    hide Joined;
    hide Ihl;
    hide Front;
    hide Headers;
    hide GuessProto;
    hide TransportHdrSize;
    CutParts(pkt);
    var h := Cut(pkt).value;
    GuessedHeaderFits(e.Plain(), e.proto);
    JoinOwn(e, Headers(e)[ProtoAt := e.proto], RestoredHdr(e.Plain(), e.proto), h.second);
    RepatchedHead(Head(pkt), fake, e.proto, e.ihl, (e.ihl + |h.first|) % 0x1_0000, (|pkt| - 14) % 0x1_0000,
                 h.first + h.second);
    assert pkt == Head(pkt) + (h.first + h.second);
    assert pkt[ProtoAt := e.proto] == Head(pkt)[ProtoAt := e.proto] + (h.first + h.second);
  }

  lemma GuessedHeaderFits(seg: seq<byte>, proto: byte)
    requires GuessProto(seg) == Some(proto)
    ensures RestoredHdr(seg, proto) <= |seg|
  {
  }

  /** Marker protocol, patch, guessed protocol, patch: only the last two show. */
  lemma RepatchedHead(head: seq<byte>, fake: byte, g: byte, ihl: nat, t1: u16, t2: u16, rest: seq<byte>)
    requires 20 <= ihl && |head| == 14 + ihl
    ensures PatchIpv4(PatchIpv4(head[ProtoAt := fake], 14, ihl, t1)[ProtoAt := g] + rest, 14, ihl, t2)
         == PatchIpv4(head[ProtoAt := g] + rest, 14, ihl, t2)
  {
    hide PatchIpv4;
    PatchAfterSet(head[ProtoAt := fake], 14, ihl, t1, t2, ProtoAt, g);
    assert head[ProtoAt := fake][ProtoAt := g] == head[ProtoAt := g];
    PatchPrefix(PatchIpv4(head[ProtoAt := fake], 14, ihl, t1)[ProtoAt := g], rest, 14, ihl, t2);
    PatchPrefix(head[ProtoAt := g], rest, 14, ihl, t2);
  }

  /** A patched packet shows which protocol number was written into it. */
  lemma ProtoShows(pkt: seq<byte>, g: byte, ihl: nat, total: u16)
    requires 20 <= ihl && 14 + ihl <= |pkt|
    ensures PatchIpv4(pkt[ProtoAt := g], 14, ihl, total)[ProtoAt] == g
    ensures PatchIpv4(pkt[ProtoAt := g], 14, ihl, total) == PatchIpv4(pkt, 14, ihl, total) <==> g == pkt[ProtoAt]
  {
    hide PatchIpv4;
    PatchOthers(pkt[ProtoAt := g], 14, ihl, total, ProtoAt);
    PatchOthers(pkt, 14, ihl, total, ProtoAt);
    assert g == pkt[ProtoAt] ==> pkt[ProtoAt := g] == pkt;
  }

  /** The guess is right for TCP, and for UDP exactly when the half does not parse as TCP. */
  lemma GuessIsRight(pkt: seq<byte>)
    requires Cut(pkt).Some?
    ensures var first := Cut(pkt).value.first;
            GuessProto(first) == Some(pkt[ProtoAt]) <==> pkt[ProtoAt] == 6 || TransportHdrSize(first, 6).None?
  {
    hide Cut;
    CutKeepsHeader(pkt);
  }

  /**
   * Splitting, decrypting both fragments and reassembling gives the canonical packet back if and
   * only if the first half is not mistaken for another protocol - always so for TCP, and for UDP
   * exactly when its first half does not parse as TCP.
   */
  lemma SplitRoundTripL3(aes: Aes, s: Sent, slot: Entry, t0: u64, t1: u64)
    requires s.Ok() && slot.Ok()
    ensures var first := Cut(s.pkt).value.first;
            var (v0, e) := ReceiveL3(aes, s, false, slot, t0);
            var (v1, e') := ReceiveL3(aes, s, true, e, t1);
            var kept := s.pkt[23] == 6 || TransportHdrSize(first, 6).None?;
            var fits := |s.pkt| <= 14 + Ihl(s.pkt, 14) + 4096;
            && v0 == (if |first| <= 1600 then Pending else Rejected)
            && (v0 == Pending ==>
                 && (v1.Complete? <==> InTime(t0, t1) && fits)
                 && (t0 <= t1 ==> (v1.Complete? <==> t1 - t0 <= 200_000_000 && fits))
                 && (v1.Complete? ==> (v1 == Complete(Canonical(s.pkt, 14)) <==> kept))
                 && (v1.Complete? ==> (v1 == Complete(s.pkt) <==> kept && IsCanonical(s.pkt, 14)))
                 && !e'.valid)
  {
    hide Cut;
    hide ReceiveL3;
    hide PatchIpv4;
    hide TransportHdrSize;
    hide GuessProto;
    hide Ihl;
    hide IsCanonical;
    hide Headers;
    ReceiveFirstL3(aes, s, slot, t0);
    InTimeExactly(t0, t1);
    var (v0, e) := ReceiveL3(aes, s, false, slot, t0);
    if v0 == Pending {
      ReceiveSecondL3(aes, s, e, t1);
      GuessIsRight(s.pkt);
      ProtoShows(s.pkt, e.proto, e.ihl, (|s.pkt| - 14) % 0x1_0000);
      CanonicalFixedPoint(s.pkt, 14);
    }
  }

  // ---- the split itself, in place ----

  predicate FitsOutputL3(p: Params, pkt: seq<byte>)
    requires p.Valid() && Cut(pkt).Some?
  {
    var room := OutMax - 14 - Ihl(pkt, 14) - p.TunnelHdrSize() - FragTagLen - p.TagLen();
    |Cut(pkt).value.first| <= room && |Cut(pkt).value.second| <= room
  }

  /** frag_split_and_encrypt. */
  method SplitAndEncryptL3(aes: Aes, p: Params, ctx: Ctx, ids: PacketIds, counters: (u32, u32), salt: Salt,
                           packet: array<byte>, n: nat, frag1: array<byte>, frag2: array<byte>)
    returns (r: int, l1: int, l2: int)
    requires p.Valid() && n <= packet.Length && frag1.Length >= OutMax && frag2.Length >= OutMax
    requires packet != frag1 && packet != frag2 && frag1 != frag2
    modifies ids, frag1, frag2
    ensures r == 0 <==> ctx.initialized && Cut(packet[..n]).Some? && FitsOutputL3(p, packet[..n])
    ensures r == 0 || (r == -1 && old(ids.next) <= ids.next <= old(ids.next) + 1)
    ensures r == 0 ==>
      var s := Sent(p, ctx, counters, salt, packet[..n], old(ids.next));
      && ids.next == old(ids.next) + 1 && s.Ok()
      && 0 <= l1 <= frag1.Length && 0 <= l2 <= frag2.Length
      && frag1[..l1] == WireL3(aes, s, false) && frag2[..l2] == WireL3(aes, s, true)
  {
    hide WireL3;
    hide FitsOutputL3;
    hide TransportHdrSize;
    hide Ihl;
    hide EtherTypeAt;
    r, l1, l2 := -1, -1, -1;
    var pkt := packet[..n];
    if n < 42 || !Ipv4At14(pkt) {
      return;
    }
    var proto := pkt[23];
    if proto != 6 && proto != 17 {
      return;
    }
    var ihl := Ihl(pkt, 14);
    var seg := pkt[14 + ihl..];
    var th := TransportHdrSize(seg, proto);
    if th.None? || |seg| == th.value {
      return;
    }
    var half1 := (|seg| - th.value) / 2;
    var id := ids.Next();
    if th.value + half1 > PlainMax {
      return;
    }
    ghost var front := pkt[..14 + ihl + PortLen];
    r, l1, l2 := EncryptHalvesL3(aes, p, ctx, counters, salt, pkt, old(ids.next),
                                 Halves(front, seg[..th.value + half1], seg[th.value + half1..]),
                                 pkt[..14 + ihl], seg[..th.value + half1], seg[th.value + half1..], ihl, id,
                                 frag1, frag2);
  }

  /** The two fragment encryptions. */
  method EncryptHalvesL3(aes: Aes, p: Params, ctx: Ctx, counters: (u32, u32), salt: Salt, ghost pkt: seq<byte>,
                         ghost serial: nat, ghost h: Halves, head: seq<byte>, plain0: seq<byte>, plain1: seq<byte>,
                         ihl: nat, id: u16, frag1: array<byte>, frag2: array<byte>)
    returns (r: int, l1: int, l2: int)
    requires p.Valid() && frag1.Length >= OutMax && frag2.Length >= OutMax && frag1 != frag2
    requires Cut(pkt) == Some(h) && ihl == Ihl(pkt, 14) && id == serial % 0x1_0000
    requires head == Head(pkt) && plain0 == h.first && plain1 == h.second
    modifies frag1, frag2
    ensures r == 0 <==> ctx.initialized && FitsOutputL3(p, pkt)
    ensures r == 0 || r == -1
    ensures r == 0 ==>
      var s := Sent(p, ctx, counters, salt, pkt, serial);
      && s.Ok() && 0 <= l1 <= frag1.Length && 0 <= l2 <= frag2.Length
      && frag1[..l1] == WireL3(aes, s, false) && frag2[..l2] == WireL3(aes, s, true)
  {
    hide WireFragmentL3;
    hide Cut;
    hide Ihl;
    hide Head;
    r, l2 := -1, -1;
    l1 := EncryptFragmentL3(aes, p, ctx, counters.0, salt, head, ihl, plain0, id, 0, frag1, OutMax);
    if l1 == -1 {
      return;
    }
    l2 := EncryptFragmentL3(aes, p, ctx, counters.1, salt, head, ihl, plain1, id, 1, frag2, OutMax);
    if l2 == -1 {
      return;
    }
    r := 0;
  }

  /** For frames of Ethernet size every split fits, at layer 3 too. */
  lemma EthernetSplitFitsL3(aes: Aes, s: Sent)
    requires s.Ok() && |s.pkt| <= 1514
    ensures |WireL3(aes, s, false)| <= Mtu && |WireL3(aes, s, true)| <= Mtu && FitsOutputL3(s.p, s.pkt)
  {
    hide WireFragmentL3;
    CutParts(s.pkt);
  }

  /** frag_need_split, in 32-bit arithmetic. */
  predicate NeedSplitL3(p: Params, n: u32)
    requires p.Valid()
  {
    (n + p.TunnelHdrSize() + FragTagLen + p.TagLen()) % 0x1_0000_0000 > Mtu
  }

  /** The two buffers take exactly the splits whose fragments have at most 2048 octets. */
  lemma FitsOutputExactlyL3(aes: Aes, s: Sent)
    requires s.Ok()
    ensures FitsOutputL3(s.p, s.pkt) <==> |WireL3(aes, s, false)| <= 2048 && |WireL3(aes, s, true)| <= 2048
  {
    hide WireFragmentL3;
  }

  /** It asks for a split exactly when the encrypted packet would leave less than 4 octets free, short of a wrap. */
  lemma SplitsExactlyL3(aes: Aes, p: Params, ctx: Ctx, counter: u32, salt: Salt, pkt: seq<byte>)
    requires p.Valid() && |pkt| < 0x1_0000_0000
    ensures var o := EncryptResultL3(aes, p, ctx, counter, salt, pkt);
            o.Rewritten? ==> (NeedSplitL3(p, |pkt|) <==> 1500 < |o.pkt| + 4 < 0x1_0000_0000)
  {
    hide WirePacketL3;
    hide Ipv4At14;
  }

  /**
   * A packet the test leaves whole stays within the MTU after encryption exactly when its sum of
   * lengths did not wrap, and it did not exactly when the packet itself is within the MTU.
   */
  lemma UnsplitFitsMtuL3(aes: Aes, p: Params, ctx: Ctx, counter: u32, salt: Salt, pkt: seq<byte>)
    requires p.Valid() && |pkt| < 0x1_0000_0000 && !NeedSplitL3(p, |pkt|)
    ensures var o := EncryptResultL3(aes, p, ctx, counter, salt, pkt);
            && (|pkt| <= Mtu <==> |pkt| + p.TunnelHdrSize() + FragTagLen + p.TagLen() < 0x1_0000_0000)
            && (o.Rewritten? ==> (|o.pkt| <= Mtu <==> |pkt| <= Mtu))
  {
    hide WirePacketL3;
    hide Ipv4At14;
  }
}
