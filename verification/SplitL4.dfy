/**
 * frag_split_and_encrypt_l4 and what reassembly makes of its fragments: one packet end to end, and
 * two packets that share an id.
 */
module SplitL4 {
  import opened Bytes
  import opened Checksum
  import opened PacketCrypto
  import opened Layer4
  import opened FragTable

  const PlainMax := 2048
  const OutMax := 2048

  /** A packet cut in two: its headers and ports, and the two plaintexts. */
  datatype Halves = Halves(front: seq<byte>, first: seq<byte>, second: seq<byte>)

  /** The cut: transport header and half the application data, then the other half. */
  function Cut(pkt: seq<byte>): (r: Option<Halves>)
    ensures r.Some? ==> TransportAt(pkt, 14) && |r.value.first| >= 8 && r.value.second != []
    ensures r.Some? ==> |r.value.front| == 14 + Ihl(pkt, 14) + PortLen
  {
    if |pkt| < 42 || EtherTypeAt(pkt, 12) != 0x0800 || !TransportAt(pkt, 14) then None
    else
      var seg := pkt[14 + Ihl(pkt, 14)..];
      match TransportHdrSize(seg, pkt[23])
      case None => None
      case Some(th) =>
        var half1 := (|seg| - th) / 2;
        if |seg| == th || th + half1 > PlainMax then None
        else Some(Halves(pkt[..14 + Ihl(pkt, 14) + PortLen], seg[..th + half1], seg[th + half1..]))
  }

  /** The halves are the whole packet: nothing is lost, and only the ports travel twice. */
  lemma CutParts(pkt: seq<byte>)
    requires Cut(pkt).Some?
    ensures var h := Cut(pkt).value;
            var head := 14 + Ihl(pkt, 14);
            && |pkt| == head + |h.first| + |h.second| && h.first + h.second == pkt[head..]
            && h.front == pkt[..head + PortLen] && Front(h.front, 14) && Ihl(h.front, 14) == Ihl(pkt, 14)
            && h.front[..head] == pkt[..head] && h.front[23] == pkt[23]
  {
  }

  /** The stored first half keeps the transport header, so its size is read back unchanged. */
  lemma CutKeepsHeader(pkt: seq<byte>)
    requires Cut(pkt).Some?
    ensures var h := Cut(pkt).value;
            TransportHdrSize(h.first, pkt[23]).Some? && RestoredHdr(h.first, pkt[23]) <= |h.first|
  {
    var seg := pkt[14 + Ihl(pkt, 14)..];
    var th := TransportHdrSize(seg, pkt[23]).value;
    TransportHdrSizeOfPrefix(seg, pkt[23], th + (|seg| - th) / 2);
  }

  /** The slot holds exactly the first half of pkt, under id. */
  ghost predicate Holds(e: Entry, pkt: seq<byte>, id: u16) {
    && Cut(pkt).Some? && e.Ok() && e.valid && e.pktId == id
    && e.ihl == Ihl(pkt, 14) && e.proto == pkt[23] && e.Plain() == Cut(pkt).value.first
    && e.eth + e.ip[..e.ihl]
       == PatchIpv4(pkt[..14 + e.ihl], 14, e.ihl, (e.ihl + PortLen + |Cut(pkt).value.first|) % 0x1_0000)
  }

  /** A decrypted half as the reassembler sees it. */
  lemma HalfShape(front: seq<byte>, plain: seq<byte>)
    requires Front(front, 14) && plain != []
    ensures var f := Rejoin(front, 14, plain);
            var ihl := Ihl(front, 14);
            && |f| >= 34 && EtherTypeAt(f, 12) == 0x0800 && Ihl(f, 14) == ihl && 14 + ihl <= |f|
            && f[23] == front[23] && HalfL4(f) == plain
            && f[..14] + f[14..14 + ihl] == PatchIpv4(front[..14 + ihl], 14, ihl, (ihl + PortLen + |plain|) % 0x1_0000)
  {
    hide PatchIpv4;
    hide Ipv4Offset;
    var ihl := Ihl(front, 14);
    var total := (ihl + PortLen + |plain|) % 0x1_0000;
    assert Ipv4Offset(front) == Some(14);
    var f := Rejoin(front, 14, plain);
    var head := PatchIpv4(front, 14, ihl, total);
    assert f == head + plain;
    PatchOthers(front, 14, ihl, total, 12);
    PatchOthers(front, 14, ihl, total, 13);
    PatchOthers(front, 14, ihl, total, 14);
    PatchOthers(front, 14, ihl, total, 23);
    assert front == front[..14 + ihl] + front[14 + ihl..];
    PatchPrefix(front[..14 + ihl], front[14 + ihl..], 14, ihl, total);
    assert f[|head|..] == plain;
    assert f[..14 + ihl] == head[..14 + ihl];
    assert f[..14 + ihl] == f[..14] + f[14..14 + ihl];
  }

  /** Reassembly of a fragment of known shape. */
  lemma ReassembleShape(e: Entry, f: seq<byte>, ihl: nat, half: seq<byte>, id: u16, now: u64)
    requires e.Ok() && |f| >= 34 && EtherTypeAt(f, 12) == 0x0800
    requires Ihl(f, 14) == ihl >= 20 && 14 + ihl <= |f| && HalfL4(f) == half
    ensures ReassembleL4(e, f, id, 0, now) == StoreStep(e, id, f[..14], f[14..14 + ihl], f[23], half, now)
    ensures ReassembleL4(e, f, id, 1, now) == JoinStep(e, Admit(e, id, |half|, 8, now), JoinedL4(e, half))
  {
    hide StoreStep;
    hide JoinStep;
    hide Admit;
    hide JoinedL4;
    hide HalfL4;
  }

  lemma StoreHolds(e: Entry, pkt: seq<byte>, id: u16, eth: seq<byte>, ip: seq<byte>, now: u64)
    requires e.Ok() && Cut(pkt).Some? && |eth| == 14 && |ip| == Ihl(pkt, 14)
    requires eth + ip == PatchIpv4(pkt[..14 + Ihl(pkt, 14)], 14, Ihl(pkt, 14),
                                   (Ihl(pkt, 14) + PortLen + |Cut(pkt).value.first|) % 0x1_0000)
    ensures var (v, e') := StoreStep(e, id, eth, ip, pkt[23], Cut(pkt).value.first, now);
            if |Cut(pkt).value.first| <= DataSize then v == Pending && Holds(e', pkt, id) && e'.stamp == now
            else v == Rejected && e' == e
  {
    hide Cut;
    hide PatchIpv4;
  }

  /** Parking pkt's first half, given as any fragment of the right shape. */
  lemma ParkFirst(e: Entry, pkt: seq<byte>, f: seq<byte>, id: u16, now: u64)
    requires e.Ok() && Cut(pkt).Some? && |f| >= 34 && EtherTypeAt(f, 12) == 0x0800
    requires Ihl(f, 14) == Ihl(pkt, 14) && 14 + Ihl(f, 14) <= |f| && f[23] == pkt[23]
    requires HalfL4(f) == Cut(pkt).value.first
    requires f[..14] + f[14..14 + Ihl(f, 14)] == PatchIpv4(pkt[..14 + Ihl(pkt, 14)], 14, Ihl(pkt, 14),
                                                  (Ihl(pkt, 14) + PortLen + |Cut(pkt).value.first|) % 0x1_0000)
    ensures var (v, e') := ReassembleL4(e, f, id, 0, now);
            if |Cut(pkt).value.first| <= DataSize then v == Pending && Holds(e', pkt, id) && e'.stamp == now
            else v == Rejected && e' == e
  {
    hide Cut;
    hide PatchIpv4;
    hide ReassembleL4;
    hide StoreStep;
    hide Holds;
    hide HalfL4;
    hide Ihl;
    ReassembleShape(e, f, Ihl(f, 14), Cut(pkt).value.first, id, now);
    StoreHolds(e, pkt, id, f[..14], f[14..14 + Ihl(f, 14)], now);
  }

  /** A first half that fits is parked; one that does not leaves the slot alone. */
  lemma FirstHalf(e: Entry, pkt: seq<byte>, id: u16, now: u64)
    requires e.Ok() && Cut(pkt).Some?
    ensures var h := Cut(pkt).value;
            var f := Rejoin(h.front, 14, h.first);
            && |f| >= 34 && Ihl(f, 14) >= 20 && 14 + Ihl(f, 14) <= |f|
            && var (v, e') := ReassembleL4(e, f, id, 0, now);
               if |h.first| <= DataSize then v == Pending && Holds(e', pkt, id) && e'.stamp == now
               else v == Rejected && e' == e
  {
    hide Cut;
    hide PatchIpv4;
    hide Rejoin;
    hide Front;
    hide ReassembleL4;
    hide Holds;
    hide HalfL4;
    hide Ihl;
    var h := Cut(pkt).value;
    CutParts(pkt);
    HalfShape(h.front, h.first);
    ParkFirst(e, pkt, Rejoin(h.front, 14, h.first), id, now);
  }

  /** Joining pkt's own second half gives pkt in canonical form. */
  lemma OwnJoinIsCanonical(e: Entry, pkt: seq<byte>, id: u16)
    requires Holds(e, pkt, id)
    ensures JoinedL4(e, Cut(pkt).value.second) == Canonical(pkt, 14)
  {
    hide Cut;
    hide PatchIpv4;
    hide JoinedL4;
    hide Canonical;
    hide Front;
    hide TransportHdrSize;
    hide RestoredHdr;
    hide Ihl;
    var h := Cut(pkt).value;
    CutParts(pkt);
    CutKeepsHeader(pkt);
    JoinOwnL4(e, h.first, h.second);
    JoinedHeaders(pkt, (e.ihl + PortLen + |h.first|) % 0x1_0000, e.ihl);
  }

  /** The join of a stored half that still shows its transport header is a plain concatenation. */
  lemma JoinOwnL4(e: Entry, first: seq<byte>, second: seq<byte>)
    requires e.Ok() && e.valid && e.Plain() == first && TransportHdrSize(first, e.proto).Some?
    ensures JoinedL4(e, second)
         == PatchIpv4((e.eth + e.ip[..e.ihl]) + (first + second), 14, e.ihl, (e.ihl + |first| + |second|) % 0x1_0000)
  {
    hide PatchIpv4;
    hide Joined;
    JoinOwn(e, Headers(e), RestoredHdr(first, e.proto), second);
  }

  // ---- one packet, end to end ----

  /** A split packet: everything its two wire fragments depend on. */
  datatype Sent = Sent(p: Params, ctx: Ctx, counters: (u32, u32), salt: Salt, pkt: seq<byte>, serial: nat) {
    predicate Ok() { p.Valid() && ctx.initialized && Cut(pkt).Some? }

    function Id(): u16 { serial % 0x1_0000 }
  }

  /** The wire fragment with the given index. */
  function Wire(aes: Aes, s: Sent, second: bool): seq<byte>
    requires s.Ok()
  {
    var h := Cut(s.pkt).value;
    var nonce := Nonce(if second then s.counters.1 else s.counters.0, s.salt, s.p.nonceSize);
    WireFragment(aes, s.p, s.ctx.current, nonce, h.front, Ihl(s.pkt, 14),
                 if second then h.second else h.first, s.Id(), if second then 1 else 0)
  }

  /** Decrypting a wire fragment yields its half behind patched headers, with id and index. */
  lemma WireDecrypts(aes: Aes, s: Sent, second: bool)
    requires s.Ok()
    ensures var h := Cut(s.pkt).value;
            Front(h.front, 14) &&
            DecryptFragment(aes, s.p, s.ctx, Wire(aes, s, second))
            == Some(Fragment(Rejoin(h.front, 14, if second then h.second else h.first), s.Id(),
                             if second then 1 else 0))
  {
    hide Cut;
    hide WireFragment;
    hide DecryptFragment;
    hide Rejoin;
    hide Ihl;
    var h := Cut(s.pkt).value;
    CutParts(s.pkt);
    var nonce := Nonce(if second then s.counters.1 else s.counters.0, s.salt, s.p.nonceSize);
    FragmentRoundTrip(aes, s.p, s.ctx, nonce, h.front, if second then h.second else h.first, s.Id(),
                      if second then 1 else 0);
  }

  /** The reassembler can read the fragment: its IPv4 header lies inside it. */
  predicate Readable(f: seq<byte>) {
    |f| >= 34 ==> Ihl(f, 14) >= 20 && 14 + Ihl(f, 14) <= |f|
  }

  /** What a receiver does with a wire fragment of s: decrypt, then reassemble in its slot. */
  function Receive(aes: Aes, s: Sent, second: bool, e: Entry, now: u64): (r: (Verdict, Entry))
    requires s.Ok() && e.Ok()
    ensures r.1.Ok()
  {
    match DecryptFragment(aes, s.p, s.ctx, Wire(aes, s, second))
    case None => (Rejected, e)
    case Some(f) => if Readable(f.pkt) then ReassembleL4(e, f.pkt, f.id, f.index, now) else (Rejected, e)
  }

  lemma ReceiveFirst(aes: Aes, s: Sent, e: Entry, now: u64)
    requires s.Ok() && e.Ok()
    ensures var (v, e') := Receive(aes, s, false, e, now);
            if |Cut(s.pkt).value.first| <= DataSize then v == Pending && Holds(e', s.pkt, s.Id()) && e'.stamp == now
            else v == Rejected && e' == e
  {
    hide Cut;
    hide DecryptFragment;
    hide ReassembleL4;
    hide Rejoin;
    hide Holds;
    hide Wire;
    WireDecrypts(aes, s, false);
    FirstHalf(e, s.pkt, s.Id(), now);
  }

  /** What any slot does with a second half. */
  lemma ReceiveOnto(aes: Aes, s: Sent, e: Entry, now: u64)
    requires s.Ok() && e.Ok()
    ensures var half := Cut(s.pkt).value.second;
            Receive(aes, s, true, e, now) == JoinStep(e, Admit(e, s.Id(), |half|, 8, now), JoinedL4(e, half))
  {
    hide Cut;
    hide DecryptFragment;
    hide ReassembleL4;
    hide Rejoin;
    hide Wire;
    hide Front;
    hide JoinedL4;
    hide HalfL4;
    hide Ihl;
    hide PatchIpv4;
    var h := Cut(s.pkt).value;
    WireDecrypts(aes, s, true);
    CutParts(s.pkt);
    HalfShape(h.front, h.second);
    ReassembleShape(e, Rejoin(h.front, 14, h.second), Ihl(h.front, 14), h.second, s.Id(), now);
  }

  lemma ReceiveSecond(aes: Aes, s: Sent, e: Entry, now: u64)
    requires s.Ok() && Holds(e, s.pkt, s.Id())
    ensures var h := Cut(s.pkt).value;
            Receive(aes, s, true, e, now) ==
            if Expired(e, now) || |h.first| + |h.second| > JoinLimit then (Rejected, e.Drop())
            else (Complete(Canonical(s.pkt, 14)), e.Drop())
  {
    hide Cut;
    hide Receive;
    hide Canonical;
    hide JoinedL4;
    hide PatchIpv4;
    ReceiveOnto(aes, s, e, now);
    OwnJoinIsCanonical(e, s.pkt, s.Id());
  }

  /** A second half never completes against a slot that is empty or waits for another id. */
  lemma ReceiveStray(aes: Aes, s: Sent, e: Entry, now: u64)
    requires s.Ok() && e.Ok() && (!e.valid || e.pktId != s.Id())
    ensures Receive(aes, s, true, e, now) == (Rejected, e)
  {
    hide Cut;
    hide Receive;
    hide JoinedL4;
    ReceiveOnto(aes, s, e, now);
  }

  /**
   * Split, decrypt both fragments, reassemble the first and then the second: if the first half fits
   * its slot, the packet comes back exactly when the second half follows within 200 ms and both
   * have at most 4096 octets; and then canonical, so as it was if and only if its IPv4 length and
   * checksum were canonical.
   */
  lemma SplitRoundTrip(aes: Aes, s: Sent, slot: Entry, t0: u64, t1: u64)
    requires s.Ok() && slot.Ok()
    ensures var (v0, e) := Receive(aes, s, false, slot, t0);
            var (v1, e') := Receive(aes, s, true, e, t1);
            var fits := |s.pkt| <= 14 + Ihl(s.pkt, 14) + 4096;
            && v0 == (if |Cut(s.pkt).value.first| <= 1600 then Pending else Rejected)
            && (v0 == Pending ==>
                 && v1 == (if InTime(t0, t1) && fits then Complete(Canonical(s.pkt, 14)) else Rejected)
                 && (t0 <= t1 ==> (v1.Complete? <==> t1 - t0 <= 200_000_000 && fits))
                 && (v1 == Complete(s.pkt) <==> InTime(t0, t1) && fits && IsCanonical(s.pkt, 14))
                 && !e'.valid)
  {
    hide Cut;
    hide Receive;
    hide Canonical;
    hide IsCanonical;
    ReceiveFirst(aes, s, slot, t0);
    InTimeExactly(t0, t1);
    CutParts(s.pkt);
    CanonicalFixedPoint(s.pkt, 14);
    var (v0, e) := Receive(aes, s, false, slot, t0);
    if v0 == Pending {
      ReceiveSecond(aes, s, e, t1);
    }
  }

  // ---- a shared id ----

  /**
   * Ids tell packets apart only while they differ: once two packets share one, the second half of
   * one does complete the first half of the other, and the result is the first packet exactly when
   * their second halves are equal. IdBound makes runs of this.
   */
  lemma ReusedIdMixes(aes: Aes, a: Sent, b: Sent, slot: Entry, t0: u64, t1: u64)
    requires a.Ok() && b.Ok() && a.Id() == b.Id() && slot.Ok()
    requires |Cut(a.pkt).value.first| <= DataSize && |Cut(a.pkt).value.first| + |Cut(b.pkt).value.second| <= JoinLimit
    requires InTime(t0, t1)
    ensures var (v0, e) := Receive(aes, a, false, slot, t0);
            var v1 := Receive(aes, b, true, e, t1).0;
            && v0 == Pending && v1.Complete?
            && (v1.pkt == Canonical(a.pkt, 14) <==> Cut(b.pkt).value.second == Cut(a.pkt).value.second)
  {
    hide Cut;
    hide Receive;
    hide Canonical;
    hide Holds;
    ReceiveFirst(aes, a, slot, t0);
    InTimeExactly(t0, t1);
    MixedOnto(aes, a, b, Receive(aes, a, false, slot, t0).1, t1);
  }

  /** The same for any slot that holds the first half of a. */
  lemma MixedOnto(aes: Aes, a: Sent, b: Sent, e: Entry, now: u64)
    requires a.Ok() && b.Ok() && a.Id() == b.Id() && Holds(e, a.pkt, a.Id()) && !Expired(e, now)
    requires |Cut(a.pkt).value.first| + |Cut(b.pkt).value.second| <= JoinLimit
    ensures var v := Receive(aes, b, true, e, now).0;
            v.Complete? && (v.pkt == Canonical(a.pkt, 14) <==> Cut(b.pkt).value.second == Cut(a.pkt).value.second)
  {
    hide Cut;
    hide Receive;
    hide JoinedL4;
    hide Canonical;
    hide PatchIpv4;
    hide RestoredHdr;
    hide TransportHdrSize;
    hide Expired;
    var ha, hb := Cut(a.pkt).value, Cut(b.pkt).value;
    ReceiveOnto(aes, b, e, now);
    CutKeepsHeader(a.pkt);
    JoinOwnL4(e, ha.first, hb.second);
    JoinOwnL4(e, ha.first, ha.second);
    OwnJoinIsCanonical(e, a.pkt, a.Id());
    PatchSeparates(e.eth + e.ip[..e.ihl], ha.first, hb.second, ha.second, e.ihl);
  }

  lemma PatchSeparates(head: seq<byte>, first: seq<byte>, x: seq<byte>, y: seq<byte>, ihl: nat)
    requires 20 <= ihl && |head| == 14 + ihl
    ensures var rx := PatchIpv4(head + (first + x), 14, ihl, (ihl + |first| + |x|) % 0x1_0000);
            var ry := PatchIpv4(head + (first + y), 14, ihl, (ihl + |first| + |y|) % 0x1_0000);
            rx == ry <==> x == y
  {
    hide PatchIpv4;
    var tx, ty := (ihl + |first| + |x|) % 0x1_0000, (ihl + |first| + |y|) % 0x1_0000;
    PatchPrefix(head, first + x, 14, ihl, tx);
    PatchPrefix(head, first + y, 14, ihl, ty);
    var rx, ry := PatchIpv4(head, 14, ihl, tx) + (first + x), PatchIpv4(head, 14, ihl, ty) + (first + y);
    if rx == ry {
      var at := |head| + |first|;
      assert rx[at..] == x && ry[at..] == y;
    }
  }

  // ---- the split itself, in place ----

  class PacketIds {
    var next: nat

    /** frag_next_pkt_id. */
    method Next() returns (id: u16)
      modifies this
      ensures id == old(next) % 0x1_0000 && next == old(next) + 1
    {
      id := next % 0x1_0000;
      next := next + 1;
    }
  }

  predicate FitsOutput(p: Params, pkt: seq<byte>)
    requires p.Valid() && Cut(pkt).Some?
  {
    && WireFragmentLen(p, Ihl(pkt, 14), |Cut(pkt).value.first|) <= OutMax
    && WireFragmentLen(p, Ihl(pkt, 14), |Cut(pkt).value.second|) <= OutMax
  }

  /** frag_split_and_encrypt_l4 on a packet that parse_flow accepted. */
  method SplitAndEncrypt(aes: Aes, p: Params, ctx: Ctx, ids: PacketIds, counters: (u32, u32), salt: Salt,
                         packet: array<byte>, n: nat, frag1: array<byte>, frag2: array<byte>)
    returns (r: int, l1: int, l2: int)
    requires p.Valid() && n <= packet.Length && frag1.Length >= OutMax && frag2.Length >= OutMax
    requires packet != frag1 && packet != frag2 && frag1 != frag2
    requires n >= 34 && (packet[23] == 6 || packet[23] == 17) ==> 14 + Ihl(packet[..n], 14) <= n
    modifies ids, frag1, frag2
    ensures r == 0 <==> ctx.initialized && Cut(packet[..n]).Some? && FitsOutput(p, packet[..n])
    ensures r == 0 || (r == -1 && old(ids.next) <= ids.next <= old(ids.next) + 1)
    ensures r == 0 ==>
      var s := Sent(p, ctx, counters, salt, packet[..n], old(ids.next));
      && ids.next == old(ids.next) + 1 && s.Ok()
      && 0 <= l1 <= frag1.Length && 0 <= l2 <= frag2.Length
      && frag1[..l1] == Wire(aes, s, false) && frag2[..l2] == Wire(aes, s, true)
  {
    hide Wire;
    hide FitsOutput;
    hide TransportHdrSize;
    hide Ihl;
    hide EtherTypeAt;
    r, l1, l2 := -1, -1, -1;
    var pkt := packet[..n];
    if n < 42 || EtherTypeAt(pkt, 12) != 0x0800 {
      return;
    }
    var proto := pkt[23];
    if proto != 6 && proto != 17 {
      return;
    }
    var ihl := Ihl(pkt, 14);
    if ihl < 20 {
      return;
    }
    var seg := pkt[14 + ihl..];
    var th := TransportHdrSize(seg, proto);
    if th.None? || |seg| == th.value {
      return;
    }
    var half1 := (|seg| - th.value) / 2;
    var id := ids.Next();
    if th.value + half1 > PlainMax {
      return;
    }
    var plain0 := seg[..th.value + half1];
    var plain1 := seg[th.value + half1..];
    var front := pkt[..14 + ihl + PortLen];
    r, l1, l2 := EncryptHalves(aes, p, ctx, counters, salt, pkt, old(ids.next), Halves(front, plain0, plain1), ihl, id,
                               frag1, frag2);
  }

  /** The two fragment encryptions. */
  method EncryptHalves(aes: Aes, p: Params, ctx: Ctx, counters: (u32, u32), salt: Salt, ghost pkt: seq<byte>,
                       ghost serial: nat, h: Halves, ihl: nat, id: u16, frag1: array<byte>, frag2: array<byte>)
    returns (r: int, l1: int, l2: int)
    requires p.Valid() && frag1.Length >= OutMax && frag2.Length >= OutMax && frag1 != frag2
    requires Cut(pkt) == Some(h) && ihl == Ihl(pkt, 14) && id == serial % 0x1_0000
    modifies frag1, frag2
    ensures r == 0 <==> ctx.initialized && FitsOutput(p, pkt)
    ensures r == 0 || r == -1
    ensures r == 0 ==>
      var s := Sent(p, ctx, counters, salt, pkt, serial);
      && s.Ok() && 0 <= l1 <= frag1.Length && 0 <= l2 <= frag2.Length
      && frag1[..l1] == Wire(aes, s, false) && frag2[..l2] == Wire(aes, s, true)
  {
    hide WireFragment;
    hide Cut;
    hide Ihl;
    r, l2 := -1, -1;
    l1 := EncryptFragment(aes, p, ctx, counters.0, salt, h.front, ihl, h.first, id, 0, frag1, OutMax);
    if l1 == -1 {
      return;
    }
    l2 := EncryptFragment(aes, p, ctx, counters.1, salt, h.front, ihl, h.second, id, 1, frag2, OutMax);
    if l2 == -1 {
      return;
    }
    r := 0;
  }

  /** For frames of Ethernet size every split fits: both fragments in the MTU, the first half in its slot. */
  lemma EthernetSplitFits(aes: Aes, s: Sent)
    requires s.Ok() && |s.pkt| <= 1514
    ensures |Wire(aes, s, false)| <= 1500 && |Wire(aes, s, true)| <= 1500
    ensures FitsOutput(s.p, s.pkt)
    ensures |Cut(s.pkt).value.first| <= DataSize && |s.pkt| <= 14 + Ihl(s.pkt, 14) + JoinLimit
  {
    hide WireFragment;
    CutParts(s.pkt);
  }

  /** The two buffers take exactly the splits whose fragments have at most 2048 octets. */
  lemma FitsOutputExactly(aes: Aes, s: Sent)
    requires s.Ok()
    ensures FitsOutput(s.p, s.pkt) <==> |Wire(aes, s, false)| <= 2048 && |Wire(aes, s, true)| <= 2048
  {
    hide WireFragment;
    CutParts(s.pkt);
  }

  const Mtu := 1500

  /** frag_need_split_l4, in 32-bit arithmetic. */
  predicate NeedSplit(p: Params, n: u32)
    requires p.Valid()
  {
    (n + PortLen + p.TunnelHdrSize() + FragTagLen + p.TagLen()) % 0x1_0000_0000 > Mtu
  }

  /** It asks for a split exactly when the encrypted packet would leave less than 8 octets free, short of a wrap. */
  lemma SplitsExactly(aes: Aes, p: Params, ctx: Ctx, counter: u32, salt: Salt, pkt: seq<byte>)
    requires p.Valid() && |pkt| < 0x1_0000_0000
    requires Ipv4Offset(pkt).Some? && L3Fits(pkt) ==> TransportInside(pkt)
    ensures var o := EncryptResult(aes, p, ctx, counter, salt, pkt);
            o.Rewritten? ==> (NeedSplit(p, |pkt|) <==> 1500 < |o.pkt| + 8 < 0x1_0000_0000)
  {
    hide WirePacket;
  }

  /**
   * A packet the test leaves whole stays within the MTU after encryption exactly when its sum of
   * lengths did not wrap, and it did not exactly when the packet itself is within the MTU.
   */
  lemma UnsplitFitsMtu(aes: Aes, p: Params, ctx: Ctx, counter: u32, salt: Salt, pkt: seq<byte>)
    requires p.Valid() && |pkt| < 0x1_0000_0000 && !NeedSplit(p, |pkt|)
    requires Ipv4Offset(pkt).Some? && L3Fits(pkt) ==> TransportInside(pkt)
    ensures var o := EncryptResult(aes, p, ctx, counter, salt, pkt);
            && (|pkt| <= Mtu <==> |pkt| + PortLen + p.TunnelHdrSize() + FragTagLen + p.TagLen() < 0x1_0000_0000)
            && (o.Rewritten? ==> (|o.pkt| <= Mtu <==> |pkt| <= Mtu))
  {
    hide WirePacket;
  }
}
