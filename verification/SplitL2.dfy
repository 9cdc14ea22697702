/** frag_split_and_encrypt_l2 and frag_try_reassemble_l2: splitting and reassembly at layer 2. */
module SplitL2 {
  import opened Bytes
  import opened Checksum
  import opened PacketCrypto
  import opened Layer4
  import opened Layer3
  import opened Layer2
  import opened FragTable
  import opened SplitL4

  /** What follows the Ethernet header, cut in two. */
  datatype Pair = Pair(first: seq<byte>, second: seq<byte>)

  predicate IsTransport(proto: byte) {
    proto == 6 || proto == 17
  }

  /** IPv4 header, any TCP or UDP header and half the rest; then the other half. */
  function CutL2(pkt: seq<byte>): (r: Option<Pair>)
    ensures r.Some? ==> Ipv4At14(pkt) && |r.value.first| >= Ihl(pkt, 14) && r.value.second != []
    ensures r.Some? ==> |r.value.first| + |r.value.second| == |pkt| - 14
  {
    if !Ipv4At14(pkt) then None
    else
      var ihl := Ihl(pkt, 14);
      var th := if IsTransport(pkt[23]) then TransportHdrSize(pkt[14 + ihl..], pkt[23]) else Some(0);
      if th.None? || |pkt| - 14 - ihl == th.value then None
      else
        var n := ihl + th.value + (|pkt| - 14 - ihl - th.value) / 2;
        if n > PlainMax then None else Some(Pair(pkt[14..][..n], pkt[14..][n..]))
  }

  /** Inner IPv4 version 4 and a sane header length, as reassembly checks them. */
  predicate InnerOk(inner: seq<byte>) {
    |inner| >= 20 && inner[0] / 16 == 4 && Ihl(inner, 0) >= 20 && Ihl(inner, 0) <= |inner|
  }

  /** The header octets the L2 join copies at least: the IPv4 header and a guessed transport header. */
  function GuessedL2(e: Entry): (n: nat)
    requires e.Ok() && e.ihl <= 60
    ensures n <= 120
  {
    if e.dataLen > e.ihl then e.ihl + RestoredHdr(e.data[e.ihl..e.dataLen], e.proto) else e.ihl
  }

  function JoinedL2(e: Entry, half: seq<byte>): seq<byte>
    requires e.Ok()
  {
    if e.valid then Joined(e, e.eth, GuessedL2(e), half)[12 := 0x08][13 := 0x00] else []
  }

  /** frag_try_reassemble_l2 on the slot of the packet id. */
  function ReassembleL2(e: Entry, pkt: seq<byte>, id: u16, index: byte, now: u64): (r: (Verdict, Entry))
    requires e.Ok()
    ensures r.1.Ok()
  {
    if |pkt| < 34 then (Rejected, e)
    else
      var inner := pkt[14..];
      if index == 0 then
        if !InnerOk(inner) then (Rejected, e)
        else StoreStep(e, id, pkt[..14], inner[..Ihl(inner, 0)], inner[9], inner, now)
      else if index == 1 then JoinStep(e, Admit(e, id, |inner|, 0, now), JoinedL2(e, inner))
      else (Rejected, e)
  }

  /** frag_try_reassemble_l2: 0 pending, 1 complete in out[..len], -1 otherwise. */
  method TryReassembleL2(t: Table, packet: array<byte>, n: nat, id: u16, index: byte, now: u64, out: array<byte>)
    returns (r: int, len: nat)
    requires t.Valid() && n <= packet.Length && out != packet && out.Length >= MaxJoined
    modifies t.entries, out
    ensures t.Valid()
    ensures t.Settled(ReassembleL2(old(t.entries[id % TableSize]), old(packet[..n]), id, index, now), id % TableSize,
                      old(t.entries[..]), r, len, out)
  {
    hide Joined;
    hide StoreStep;
    hide GuessedL2;
    hide Ihl;
    hide PatchIpv4;
    r, len := -1, 0;
    var pkt := packet[..n];
    if n < 34 {
      return;
    }
    var inner := pkt[14..];
    var slot := id % TableSize;
    if index == 0 {
      if InnerOk(inner) {
        r := t.StoreHalf(slot, id, pkt[..14], inner[..Ihl(inner, 0)], inner[9], inner, now);
      }
    } else if index == 1 {
      var e := t.entries[slot];
      if e.valid {
        r, len := JoinHalfL2(t, slot, id, GuessedL2(e), inner, now, out);
      }
    }
  }

  /** Index 1: the join, and the real EtherType put back. */
  method JoinHalfL2(t: Table, slot: nat, id: u16, hdr: nat, half: seq<byte>, now: u64, out: array<byte>)
    returns (r: int, len: nat)
    requires t.Valid() && slot < TableSize && out.Length >= MaxJoined
    requires t.entries[slot].valid && hdr == GuessedL2(t.entries[slot])
    modifies t.entries, out
    ensures t.Valid()
    ensures var e := old(t.entries[slot]);
            t.Settled(JoinStep(e, Admit(e, id, |half|, 0, now), JoinedL2(e, half)), slot,
                      old(t.entries[..]), r, len, out)
  {
    hide Joined;
    ghost var e := t.entries[slot];
    r, len := t.JoinHalf(slot, id, t.entries[slot].eth, hdr, half, 0, now, out);
    if r == 1 {
      out[12] := 0x08;
      out[13] := 0x00;
      assert out[..len] == Joined(e, e.eth, hdr, half)[12 := 0x08][13 := 0x00];
    }
  }

  // ---- one packet, end to end ----

  /** A packet split at layer 2; the fields are those of an L4 split. */
  predicate OkL2(s: Sent) {
    s.p.Valid() && s.ctx.initialized && s.p.fakeEthertype != 0 && CutL2(s.pkt).Some?
  }

  function WireL2(aes: Aes, s: Sent, second: bool): seq<byte>
    requires OkL2(s)
  {
    var h := CutL2(s.pkt).value;
    var nonce := Nonce(if second then s.counters.1 else s.counters.0, s.salt, s.p.nonceSize);
    WireFragmentL2(aes, s.p, s.ctx.current, nonce, s.pkt[..14],
                   if second then h.second else h.first, s.Id(), if second then 1 else 0)
  }

  function ReceiveL2(aes: Aes, s: Sent, second: bool, e: Entry, now: u64): (r: (Verdict, Entry))
    requires OkL2(s) && e.Ok()
    ensures r.1.Ok()
  {
    match DecryptFragmentL2(aes, s.p, s.ctx, WireL2(aes, s, second))
    case None => (Rejected, e)
    case Some(f) => ReassembleL2(e, f.pkt, f.id, f.index, now)
  }

  lemma WireDecryptsL2(aes: Aes, s: Sent, second: bool)
    requires OkL2(s)
    ensures var h := CutL2(s.pkt).value;
            DecryptFragmentL2(aes, s.p, s.ctx, WireL2(aes, s, second))
            == Some(Fragment(Marked(s.p, s.pkt[..14]) + if second then h.second else h.first, s.Id(),
                             if second then 1 else 0))
  {
    hide CutL2;
    hide DecryptFragmentL2;
    hide WireFragmentL2;
    hide Marked;
    var h := CutL2(s.pkt).value;
    var nonce := Nonce(if second then s.counters.1 else s.counters.0, s.salt, s.p.nonceSize);
    FragmentRoundTripL2(aes, s.p, s.ctx, nonce, s.pkt[..14],
                        if second then h.second else h.first, s.Id(), if second then 1 else 0);
  }

  /** The halves put together are everything behind the Ethernet header. */
  lemma CutPartsL2(pkt: seq<byte>)
    requires CutL2(pkt).Some?
    ensures var h := CutL2(pkt).value;
            var ihl := Ihl(pkt, 14);
            && h.first + h.second == pkt[14..] && Ihl(h.first, 0) == ihl
            && h.first[9] == pkt[23] && h.first[0] == pkt[14]
            && h.first[..ihl] == pkt[14..14 + ihl] && |h.first| >= 20
  {
    hide TransportHdrSize;
  }

  /** The header guessed at the join lies inside the first half as soon as the second has 20 octets. */
  lemma GuessFits(pkt: seq<byte>)
    requires CutL2(pkt).Some? && |CutL2(pkt).value.second| >= 20
    ensures var first, ihl := CutL2(pkt).value.first, Ihl(pkt, 14);
            |first| > ihl && ihl + RestoredHdr(first[ihl..], pkt[23]) <= |first|
  {
    var ihl := Ihl(pkt, 14);
    var seg := pkt[14 + ihl..];
    var first := CutL2(pkt).value.first;
    assert first[ihl..] == seg[..|first| - ihl];
    if IsTransport(pkt[23]) {
      TransportHdrSizeOfPrefix(seg, pkt[23], |first| - ihl);
    }
  }

  ghost predicate HoldsL2(e: Entry, pkt: seq<byte>, id: u16, eth: seq<byte>) {
    && CutL2(pkt).Some? && e.Ok() && e.valid && e.pktId == id && e.ihl == Ihl(pkt, 14) && e.proto == pkt[23]
    && e.Plain() == CutL2(pkt).value.first && e.eth == eth
  }

  /** Reassembly of a fragment given as Ethernet header and plaintext. */
  lemma ReassembleShapeL2(e: Entry, eth: seq<byte>, inner: seq<byte>, id: u16, now: u64)
    requires e.Ok() && |eth| == 14
    ensures |inner| >= 20 && InnerOk(inner) ==>
      ReassembleL2(e, eth + inner, id, 0, now) == StoreStep(e, id, eth, inner[..Ihl(inner, 0)], inner[9], inner, now)
    ensures |inner| >= 20 && !InnerOk(inner) ==> ReassembleL2(e, eth + inner, id, 0, now) == (Rejected, e)
    ensures |inner| >= 20 ==>
      ReassembleL2(e, eth + inner, id, 1, now) == JoinStep(e, Admit(e, id, |inner|, 0, now), JoinedL2(e, inner))
    ensures |inner| < 20 ==> ReassembleL2(e, eth + inner, id, 1, now) == (Rejected, e)
  {
    hide StoreStep;
    hide JoinStep;
    hide Admit;
    hide JoinedL2;
    hide InnerOk;
    hide Ihl;
    assert (eth + inner)[14..] == inner && (eth + inner)[..14] == eth;
  }

  lemma ReceiveFirstL2(aes: Aes, s: Sent, e: Entry, now: u64)
    requires OkL2(s) && e.Ok()
    ensures var (v, e') := ReceiveL2(aes, s, false, e, now);
            if s.pkt[14] / 16 == 4 && |CutL2(s.pkt).value.first| <= DataSize
            then v == Pending && HoldsL2(e', s.pkt, s.Id(), Marked(s.p, s.pkt[..14])) && e'.stamp == now
            else v == Rejected && e' == e
  {
    hide CutL2;
    hide DecryptFragmentL2;
    hide WireL2;
    hide ReassembleL2;
    hide Marked;
    hide Splice;
    var first := CutL2(s.pkt).value.first;
    WireDecryptsL2(aes, s, false);
    CutPartsL2(s.pkt);
    ReassembleShapeL2(e, Marked(s.p, s.pkt[..14]), first, s.Id(), now);
  }

  /** What any slot does with a second half: one too short for the reassembler is refused at once. */
  lemma ReceiveOntoL2(aes: Aes, s: Sent, e: Entry, now: u64)
    requires OkL2(s) && e.Ok()
    ensures var half := CutL2(s.pkt).value.second;
            ReceiveL2(aes, s, true, e, now)
            == if |half| < 20 then (Rejected, e) else JoinStep(e, Admit(e, s.Id(), |half|, 0, now), JoinedL2(e, half))
  {
    hide CutL2;
    hide DecryptFragmentL2;
    hide WireL2;
    hide ReassembleL2;
    hide Marked;
    hide JoinedL2;
    hide JoinStep;
    hide Admit;
    WireDecryptsL2(aes, s, true);
    ReassembleShapeL2(e, Marked(s.p, s.pkt[..14]), CutL2(s.pkt).value.second, s.Id(), now);
  }

  /** A second half never completes against a slot that is empty or waits for another id. */
  lemma ReceiveStrayL2(aes: Aes, s: Sent, e: Entry, now: u64)
    requires OkL2(s) && e.Ok() && (!e.valid || e.pktId != s.Id())
    ensures ReceiveL2(aes, s, true, e, now) == (Rejected, e)
  {
    hide CutL2;
    hide ReceiveL2;
    hide JoinedL2;
    ReceiveOntoL2(aes, s, e, now);
  }

  lemma ReceiveSecondL2(aes: Aes, s: Sent, e: Entry, now: u64)
    requires OkL2(s) && HoldsL2(e, s.pkt, s.Id(), Marked(s.p, s.pkt[..14]))
    ensures var second := CutL2(s.pkt).value.second;
            ReceiveL2(aes, s, true, e, now)
            == if |second| < 20 then (Rejected, e)
               else if Expired(e, now) || |s.pkt| > 14 + JoinLimit then (Rejected, e.Drop())
               else (Complete(Canonical(s.pkt, 14)), e.Drop())
  {
    hide CutL2;
    hide ReceiveL2;
    hide Marked;
    hide JoinedL2;
    hide Canonical;
    hide Expired;
    hide Ihl;
    var second := CutL2(s.pkt).value.second;
    ReceiveOntoL2(aes, s, e, now);
    if |second| >= 20 {
      OwnJoinL2(e, s.pkt, s.Id(), s.p);
    }
  }

  lemma OwnJoinL2(e: Entry, pkt: seq<byte>, id: u16, p: Params)
    requires CutL2(pkt).Some? && HoldsL2(e, pkt, id, Marked(p, pkt[..14])) && |CutL2(pkt).value.second| >= 20
    ensures JoinedL2(e, CutL2(pkt).value.second) == Canonical(pkt, 14)
  {
    hide CutL2;
    hide Joined;
    hide PatchIpv4;
    hide Ihl;
    hide RestoredHdr;
    hide Marked;
    var h := CutL2(pkt).value;
    CutPartsL2(pkt);
    GuessFits(pkt);
    assert e.data[e.ihl..e.dataLen] == h.first[e.ihl..];
    JoinOwn(e, e.eth, GuessedL2(e), h.second);
    UnmarkedPatch(p, pkt, e.ihl, (|pkt| - 14) % 0x1_0000);
  }

  /** The EtherType can be put back after the header was patched. */
  lemma UnmarkedPatch(p: Params, pkt: seq<byte>, ihl: nat, total: u16)
    requires 20 <= ihl && 14 + ihl <= |pkt| && EtherTypeAt(pkt, 12) == 0x0800
    ensures PatchIpv4(Marked(p, pkt[..14]) + pkt[14..], 14, ihl, total)[12 := 0x08][13 := 0x00]
            == PatchIpv4(pkt, 14, ihl, total)
  {
    hide IpChecksum;
    var marked := Marked(p, pkt[..14]) + pkt[14..];
    assert Unsummed(marked, 14, total)[14..14 + ihl] == Unsummed(pkt, 14, total)[14..14 + ihl];
    assert pkt == pkt[..14] + pkt[14..];
    assert forall i :: 0 <= i < |pkt| && i != 12 && i != 13 ==> marked[i] == pkt[i];
  }

  /**
   * Splitting at layer 2, decrypting both fragments and reassembling gives the canonical packet
   * back exactly when the IPv4 version is 4 and the second half has at least 20 octets; otherwise
   * a fragment is refused.
   */
  lemma SplitRoundTripL2(aes: Aes, s: Sent, slot: Entry, t0: u64, t1: u64)
    requires OkL2(s) && slot.Ok()
    ensures var (v0, e) := ReceiveL2(aes, s, false, slot, t0);
            var (v1, e') := ReceiveL2(aes, s, true, e, t1);
            var parks := s.pkt[14] / 16 == 4 && |CutL2(s.pkt).value.first| <= 1600;
            var joins := |CutL2(s.pkt).value.second| >= 20 && InTime(t0, t1) && |s.pkt| <= 14 + 4096;
            && (v0 == Pending <==> parks) && (!parks ==> v0 == Rejected && e == slot)
            && (parks ==> v1 == if joins then Complete(Canonical(s.pkt, 14)) else Rejected)
            && (parks && t0 <= t1 ==>
                 (v1.Complete? <==>
                    |CutL2(s.pkt).value.second| >= 20 && t1 - t0 <= 200_000_000 && |s.pkt| <= 14 + 4096))
            && (parks && joins ==> (v1 == Complete(s.pkt) <==> IsCanonical(s.pkt, 14)))
  {
    hide CutL2;
    hide ReceiveL2;
    hide Marked;
    hide Canonical;
    hide IsCanonical;
    hide Ihl;
    ReceiveFirstL2(aes, s, slot, t0);
    InTimeExactly(t0, t1);
    if s.pkt[14] / 16 == 4 && |CutL2(s.pkt).value.first| <= DataSize {
      ReceiveSecondL2(aes, s, ReceiveL2(aes, s, false, slot, t0).1, t1);
    }
    CanonicalFixedPoint(s.pkt, 14);
  }

  // ---- the split itself, in place ----

  predicate FitsOutputL2(p: Params, pkt: seq<byte>)
    requires p.Valid() && CutL2(pkt).Some?
  {
    var room := OutMax - 14 - p.nonceSize - 1 - FragTagLen - p.TagLen();
    |CutL2(pkt).value.first| <= room && |CutL2(pkt).value.second| <= room
  }

  /** frag_split_and_encrypt_l2. */
  method SplitAndEncryptL2(aes: Aes, p: Params, ctx: Ctx, ids: PacketIds, counters: (u32, u32), salt: Salt,
                           packet: array<byte>, n: nat, frag1: array<byte>, frag2: array<byte>)
    returns (r: int, l1: int, l2: int)
    requires p.Valid() && n <= packet.Length && frag1.Length >= OutMax && frag2.Length >= OutMax
    requires packet != frag1 && packet != frag2 && frag1 != frag2
    modifies ids, frag1, frag2
    ensures r == 0
            <==> ctx.initialized && p.fakeEthertype != 0 && CutL2(packet[..n]).Some? && FitsOutputL2(p, packet[..n])
    ensures r == 0 || (r == -1 && old(ids.next) <= ids.next <= old(ids.next) + 1)
    ensures r == 0 ==>
      var s := Sent(p, ctx, counters, salt, packet[..n], old(ids.next));
      && ids.next == old(ids.next) + 1 && OkL2(s)
      && 0 <= l1 <= frag1.Length && 0 <= l2 <= frag2.Length
      && frag1[..l1] == WireL2(aes, s, false) && frag2[..l2] == WireL2(aes, s, true)
  {
    hide WireL2;
    hide FitsOutputL2;
    hide TransportHdrSize;
    hide Ihl;
    r, l1, l2 := -1, -1, -1;
    var pkt := packet[..n];
    if n < 34 || !Ipv4At14(pkt) {
      return;
    }
    var ihl := Ihl(pkt, 14);
    var th := if IsTransport(pkt[23]) then TransportHdrSize(pkt[14 + ihl..], pkt[23]) else Some(0);
    if th.None? || n - 14 - ihl == th.value {
      return;
    }
    var id := ids.Next();
    var cut := ihl + th.value + (n - 14 - ihl - th.value) / 2;
    if cut > PlainMax {
      return;
    }
    r, l1, l2 := EncryptHalvesL2(aes, p, ctx, counters, salt, pkt, old(ids.next),
                                 Pair(pkt[14..][..cut], pkt[14..][cut..]), id, frag1, frag2);
  }

  /** The two fragment encryptions. */
  method EncryptHalvesL2(aes: Aes, p: Params, ctx: Ctx, counters: (u32, u32), salt: Salt, pkt: seq<byte>,
                         ghost serial: nat, h: Pair, id: u16, frag1: array<byte>, frag2: array<byte>)
    returns (r: int, l1: int, l2: int)
    requires p.Valid() && frag1.Length >= OutMax && frag2.Length >= OutMax && frag1 != frag2
    requires CutL2(pkt) == Some(h) && id == serial % 0x1_0000
    modifies frag1, frag2
    ensures r == 0 <==> ctx.initialized && p.fakeEthertype != 0 && FitsOutputL2(p, pkt)
    ensures r == 0 || r == -1
    ensures r == 0 ==>
      var s := Sent(p, ctx, counters, salt, pkt, serial);
      && OkL2(s) && 0 <= l1 <= frag1.Length && 0 <= l2 <= frag2.Length
      && frag1[..l1] == WireL2(aes, s, false) && frag2[..l2] == WireL2(aes, s, true)
  {
    hide WireFragmentL2;
    hide CutL2;
    hide Ihl;
    var eth := pkt[..14];
    r, l2 := -1, -1;
    l1 := EncryptFragmentL2(aes, p, ctx, counters.0, salt, eth, h.first, id, 0, frag1, OutMax);
    if l1 == -1 {
      return;
    }
    l2 := EncryptFragmentL2(aes, p, ctx, counters.1, salt, eth, h.second, id, 1, frag2, OutMax);
    if l2 == -1 {
      return;
    }
    r := 0;
  }

  /** For frames of Ethernet size every split fits, at layer 2 too. */
  lemma EthernetSplitFitsL2(aes: Aes, s: Sent)
    requires OkL2(s) && |s.pkt| <= 1514
    ensures |WireL2(aes, s, false)| <= Mtu && |WireL2(aes, s, true)| <= Mtu
    ensures FitsOutputL2(s.p, s.pkt) && |CutL2(s.pkt).value.first| <= DataSize
  {
    hide WireFragmentL2;
  }

  /** frag_need_split_l2, in 32-bit arithmetic. */
  predicate NeedSplitL2(p: Params, n: u32)
    requires p.Valid()
  {
    (n + p.nonceSize + 1 + FragTagLen + p.TagLen()) % 0x1_0000_0000 > Mtu
  }

  /** The two buffers take exactly the splits whose fragments have at most 2048 octets. */
  lemma FitsOutputExactlyL2(aes: Aes, s: Sent)
    requires OkL2(s)
    ensures FitsOutputL2(s.p, s.pkt) <==> |WireL2(aes, s, false)| <= 2048 && |WireL2(aes, s, true)| <= 2048
  {
    hide WireFragmentL2;
  }

  /** It asks for a split exactly when the encrypted packet would leave less than 5 octets free, short of a wrap. */
  lemma SplitsExactlyL2(aes: Aes, p: Params, ctx: Ctx, counter: u32, salt: Salt, pkt: seq<byte>)
    requires p.Valid() && |pkt| < 0x1_0000_0000
    ensures var o := EncryptResultL2(aes, p, ctx, counter, salt, pkt);
            o.Rewritten? ==> (NeedSplitL2(p, |pkt|) <==> 1500 < |o.pkt| + 5 < 0x1_0000_0000)
  {
    hide WirePacketL2;
  }

  /**
   * A packet the test leaves whole stays within the MTU after encryption exactly when its sum of
   * lengths did not wrap, and it did not exactly when the packet itself is within the MTU.
   */
  lemma UnsplitFitsMtuL2(aes: Aes, p: Params, ctx: Ctx, counter: u32, salt: Salt, pkt: seq<byte>)
    requires p.Valid() && |pkt| < 0x1_0000_0000 && !NeedSplitL2(p, |pkt|)
    ensures var o := EncryptResultL2(aes, p, ctx, counter, salt, pkt);
            && (|pkt| <= Mtu <==> |pkt| + p.nonceSize + 1 + FragTagLen + p.TagLen() < 0x1_0000_0000)
            && (o.Rewritten? ==> (|o.pkt| <= Mtu <==> |pkt| <= Mtu))
  {
    hide WirePacketL2;
  }
}
