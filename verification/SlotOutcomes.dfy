/**
 * What one slot of the pending-half table does with any fragment, and where the splitters cut any
 * packet, in terms of the fields (src/core/fragment.c).
 */
module SlotOutcomes {
  import opened Bytes
  import opened Checksum
  import opened FragTable
  import opened Layer3
  import opened Layer4
  import opened PacketCrypto
  import opened SplitL2
  import opened SplitL3
  import opened SplitL4
  import opened WireFormat

  // ---- parking ----

  /** e parks this half: all of its octets, headers and protocol, and the time. */
  predicate Parked(e: Entry, id: u16, eth: seq<byte>, ip: seq<byte>, proto: byte, half: seq<byte>, now: u64) {
    && e.valid && e.pktId == id && e.eth == eth && e.proto == proto && e.stamp == now
    && e.ihl == |ip| <= |e.ip| && e.ip[..|ip|] == ip
    && e.dataLen == |half| <= |e.data| && e.data[..|half|] == half
  }

  /** A half of at most 1600 octets replaces whatever the slot held; a longer one changes nothing. */
  lemma StoreOutcome(e: Entry, id: u16, eth: seq<byte>, ip: seq<byte>, proto: byte, half: seq<byte>, now: u64)
    requires e.Ok() && |eth| == 14 && 20 <= |ip| <= 60
    ensures var (v, e') := StoreStep(e, id, eth, ip, proto, half, now);
            if |half| <= 1600 then v == Pending && Parked(e', id, eth, ip, proto, half, now)
            else v == Rejected && e' == e
  {
  }

  // ---- joining ----

  /** The octets of the transport header, or 20 for TCP and 8 otherwise where the half shows none. */
  function HeaderLen(half: seq<byte>, proto: byte): nat {
    if proto == 6 then
      if |half| >= 20 && 5 <= half[12] / 16 && 4 * (half[12] / 16) as int <= |half|
      then 4 * (half[12] / 16) as int else 20
    else 8
  }

  lemma HeaderLenExactly(half: seq<byte>, proto: byte)
    ensures RestoredHdr(half, proto) == HeaderLen(half, proto)
  {
  }

  /**
   * A second half against slot e: without its own id it changes nothing; late, or with fewer than
   * least or more than 4096 octets in all, it empties the slot; else it completes joined and empties
   * the slot.
   */
  predicate Met(v: Verdict, e: Entry, e': Entry, id: u16, halfLen: nat, least: nat, now: u64) {
    if !e.valid || e.pktId != id then v == Rejected && e' == e
    else
      && e' == e.(valid := false)
      && (v.Complete? <==> InTime(e.stamp, now) && least <= e.dataLen + halfLen <= 4096)
      && (v.Complete? || v.Rejected?)
  }

  lemma JoinOutcome(e: Entry, id: u16, halfLen: nat, least: nat, now: u64, joined: seq<byte>)
    requires e.Ok()
    ensures var (v, e') := JoinStep(e, Admit(e, id, halfLen, least, now), joined);
            Met(v, e, e', id, halfLen, least, now) && (v.Complete? ==> v.pkt == joined)
  {
    InTimeExactly(e.stamp, now);
    hide Elapsed;
    hide InTime;
  }

  /** headers, the parked half - no shorter than hdr, whatever stands there - and the second half, stamped. */
  predicate JoinedAs(e: Entry, headers: seq<byte>, hdr: nat, half: seq<byte>, x: seq<byte>)
    requires e.Ok() && e.valid && hdr <= 120
  {
    var flat := headers + e.data[..if hdr > e.dataLen then hdr else e.dataLen] + half;
    14 + e.ihl <= |flat| && Stamped(flat, x, 14, e.ihl, (|flat| - 14) % 0x1_0000)
  }

  lemma JoinedStamped(e: Entry, headers: seq<byte>, hdr: nat, half: seq<byte>)
    requires e.Ok() && e.valid && hdr <= 120 && 14 + e.ihl <= |headers| + Copied(e, hdr)
    requires (headers + e.data[..Copied(e, hdr)] + half)[14] > 0
    ensures JoinedAs(e, headers, hdr, half, Joined(e, headers, hdr, half))
  {
    hide PatchIpv4;
    hide Stamped;
    var flat := headers + e.data[..Copied(e, hdr)] + half;
    PatchStampsExactly(flat, Joined(e, headers, hdr, half), 14, e.ihl, (|flat| - 14) % 0x1_0000);
  }

  // ---- layer 4 ----

  /**
   * Layer 4: index 0 parks what follows the ports, index 1 meets the slot, needing 8 octets in all;
   * anything else, and anything but untagged IPv4, changes nothing.
   */
  lemma ReassembleOutcomeL4(e: Entry, pkt: seq<byte>, id: u16, index: byte, now: u64)
    requires e.Ok()
    requires |pkt| >= 34 ==> Ihl(pkt, 14) >= 20 && 14 + Ihl(pkt, 14) <= |pkt|
    ensures var (v, e') := ReassembleL4(e, pkt, id, index, now);
            if |pkt| < 34 || pkt[12] != 0x08 || pkt[13] != 0 || index > 1 then v == Rejected && e' == e
            else
              var head := 14 + 4 * (pkt[14] % 16) as int;
              var half := if |pkt| > head + 4 then pkt[head + 4..] else [];
              if index == 0 then
                if |half| <= 1600
                then v == Pending && Parked(e', id, pkt[..14], pkt[14..head], pkt[23], half, now)
                else v == Rejected && e' == e
              else
                && Met(v, e, e', id, |half|, 8, now)
                && (v.Complete? && e.ip[0] > 0 ==>
                     JoinedAs(e, e.eth + e.ip[..e.ihl], HeaderLen(e.data[..e.dataLen], e.proto), half, v.pkt))
  {
    hide StoreStep;
    hide JoinStep;
    hide Admit;
    hide Met;
    hide Parked;
    hide JoinedAs;
    hide Joined;
    hide RestoredHdr;
    hide HeaderLen;
    if |pkt| >= 34 && pkt[12] == 0x08 && pkt[13] == 0 {
      var head := 14 + Ihl(pkt, 14);
      var half := if |pkt| > head + 4 then pkt[head + 4..] else [];
      assert half == HalfL4(pkt);
      StoreOutcome(e, id, pkt[..14], pkt[14..head], pkt[23], half, now);
      JoinOutcome(e, id, |half|, 8, now, JoinedL4(e, half));
      if e.valid && e.ip[0] > 0 {
        HeaderLenExactly(e.Plain(), e.proto);
        JoinedStamped(e, Headers(e), RestoredHdr(e.Plain(), e.proto), half);
        MetOnlyValid(e, id, |half|, 8, now);
      }
      MetOnlyValid(e, id, |half|, 8, now);
    }
  }

  lemma MetOnlyValid(e: Entry, id: u16, halfLen: nat, least: nat, now: u64)
    ensures forall v, e' :: Met(v, e, e', id, halfLen, least, now) && v.Complete? ==> e.valid
  {
  }

  // ---- layer 3 ----

  /** The protocol a half is taken for: TCP where a TCP header would fit, else UDP where one would. */
  lemma GuessExactly(half: seq<byte>)
    ensures GuessProto(half)
         == if |half| >= 20 && 5 <= half[12] / 16 && 4 * (half[12] / 16) as int <= |half| then Some(6)
            else if |half| >= 8 then Some(17)
            else None
  {
  }

  /** Layer 3: all behind the IPv4 header is the half, and the guessed protocol is written back. */
  lemma ReassembleOutcomeL3(e: Entry, pkt: seq<byte>, id: u16, index: byte, now: u64)
    requires e.Ok()
    ensures var (v, e') := ReassembleL3(e, pkt, id, index, now);
            if !Ipv4At14(pkt) || index > 1 then v == Rejected && e' == e
            else
              var head := 14 + 4 * (pkt[14] % 16) as int;
              var half := pkt[head..];
              if index == 0 then
                if |half| <= 1600 && GuessProto(half).Some?
                then v == Pending && Parked(e', id, pkt[..14], pkt[14..head], GuessProto(half).value, half, now)
                else v == Rejected && e' == e
              else
                && Met(v, e, e', id, |half|, 0, now)
                && (v.Complete? && e.ip[0] > 0 ==>
                     JoinedAs(e, (e.eth + e.ip[..e.ihl])[23 := e.proto], HeaderLen(e.data[..e.dataLen], e.proto),
                              half, v.pkt))
  {
    hide StoreStep;
    hide JoinStep;
    hide Admit;
    hide Met;
    hide Parked;
    hide JoinedAs;
    hide Joined;
    hide RestoredHdr;
    hide HeaderLen;
    hide GuessProto;
    if Ipv4At14(pkt) {
      var head := 14 + Ihl(pkt, 14);
      var half := pkt[head..];
      if GuessProto(half).Some? {
        StoreOutcome(e, id, pkt[..14], pkt[14..head], GuessProto(half).value, half, now);
      }
      JoinOutcome(e, id, |half|, 0, now, JoinedL3(e, half));
      if e.valid && e.ip[0] > 0 {
        HeaderLenExactly(e.Plain(), e.proto);
        JoinedStamped(e, Headers(e)[ProtoAt := e.proto], RestoredHdr(e.Plain(), e.proto), half);
      }
      MetOnlyValid(e, id, |half|, 0, now);
    }
  }

  // ---- layer 2 ----

  /** Layer 2: the half starts with its IPv4 header, of version 4; EtherType 08 00 is written back. */
  lemma ReassembleOutcomeL2(e: Entry, pkt: seq<byte>, id: u16, index: byte, now: u64)
    requires e.Ok()
    ensures var (v, e') := ReassembleL2(e, pkt, id, index, now);
            if |pkt| < 34 || index > 1 then v == Rejected && e' == e
            else
              var half := pkt[14..];
              var ihl := 4 * (half[0] % 16) as int;
              if index == 0 then
                if half[0] / 16 == 4 && 20 <= ihl <= |half| <= 1600
                then v == Pending && Parked(e', id, pkt[..14], half[..ihl], half[9], half, now)
                else v == Rejected && e' == e
              else
                Met(v, e, e', id, |half|, 0, now)
  {
    hide StoreStep;
    hide JoinStep;
    hide Admit;
    hide Met;
    hide Parked;
    hide JoinedL2;
    if |pkt| >= 34 {
      var half := pkt[14..];
      var ihl := 4 * (half[0] % 16) as int;
      assert Ihl(half, 0) == ihl;
      if InnerOk(half) {
        StoreOutcome(e, id, pkt[..14], half[..ihl], half[9], half, now);
      }
      JoinOutcome(e, id, |half|, 0, now, JoinedL2(e, half));
    }
  }

  /** Its joined packet is the Ethernet addresses, 08 00, and both halves, stamped. */
  lemma JoinedOutcomeL2(e: Entry, half: seq<byte>)
    requires e.Ok() && e.valid && e.data[0] > 0
    ensures var hdr := if e.dataLen > e.ihl then e.ihl + HeaderLen(e.data[e.ihl..e.dataLen], e.proto) else e.ihl;
            var first := e.data[..if hdr > e.dataLen then hdr else e.dataLen];
            var flat := e.eth[..12] + [0x08, 0x00] + first + half;
            14 + e.ihl <= |flat| && Stamped(flat, JoinedL2(e, half), 14, e.ihl, (|flat| - 14) % 0x1_0000)
  {
    hide PatchIpv4;
    hide RestoredHdr;
    hide HeaderLen;
    if e.dataLen > e.ihl {
      HeaderLenExactly(e.data[e.ihl..e.dataLen], e.proto);
    }
    var first := e.data[..Copied(e, GuessedL2(e))];
    var flat := e.eth[..12] + [0x08, 0x00] + first + half;
    var out := e.eth + first + half;
    var total := (|flat| - 14) % 0x1_0000;
    assert flat[14] == e.data[0] == out[14];
    PatchStampsExactly(out, PatchIpv4(out, 14, e.ihl, total), 14, e.ihl, total);
    StampedApart(out, PatchIpv4(out, 14, e.ihl, total), e.ihl, total);
    assert flat == out[12 := 0x08][13 := 0x00];
  }

  /** Octets in front of the header may be set afterwards. */
  lemma StampedApart(s: seq<byte>, r: seq<byte>, ihl: nat, total: u16)
    requires 20 <= ihl && 14 + ihl <= |s| && Stamped(s, r, 14, ihl, total)
    ensures Stamped(s[12 := 0x08][13 := 0x00], r[12 := 0x08][13 := 0x00], 14, ihl, total)
  {
    hide Summed;
    assert r[12 := 0x08][13 := 0x00][14..14 + ihl] == r[14..14 + ihl];
  }

  // ---- cuts ----

  /**
   * Layers 3 and 4 cut a packet behind its transport header and half of what follows, the smaller
   * half first: exactly the packets with a payload and a first half of at most 2048 octets.
   */
  lemma CutExactly(pkt: seq<byte>)
    ensures Cut(pkt).Some? <==>
              && |pkt| >= 42 && TakenL4(pkt, 14)
              && var seg := pkt[14 + 4 * (pkt[14] % 16) as int..];
                 var th := TransportHdrSize(seg, pkt[23]).value;
                 |seg| > th && th + (|seg| - th) / 2 <= 2048
    ensures Cut(pkt).Some? ==>
              var at := 14 + 4 * (pkt[14] % 16) as int;
              var th := TransportHdrSize(pkt[at..], pkt[23]).value;
              var h := Cut(pkt).value;
              && h.front == pkt[..at + 4] && h.first + h.second == pkt[at..]
              && th <= |h.first| && 0 <= |h.second| - (|h.first| - th) <= 1
  {
    hide TransportHdrSize;
    hide Ipv4Offset;
    Ipv4OffsetExactly(pkt);
    if |pkt| >= 42 && TransportAt(pkt, 14) {
      var seg := pkt[14 + Ihl(pkt, 14)..];
      NoOtherTransport(seg, pkt[23]);
      if TransportHdrSize(seg, pkt[23]).Some? {
        var n := TransportHdrSize(seg, pkt[23]).value;
        var half := (|seg| - n) / 2;
        assert n <= |seg| ==> 0 <= (|seg| - n) - 2 * half <= 1;
        if n + half <= |seg| {
          assert seg[..n + half] + seg[n + half..] == seg;
        }
      }
    }
    if |pkt| >= 42 && TakenL4(pkt, 14) {
      NoOtherTransport(pkt[14 + Ihl(pkt, 14)..], pkt[23]);
    }
  }

  /** Layer 2 cuts any IPv4 packet with a payload likewise, with the IPv4 header in the first half. */
  lemma CutExactlyL2(pkt: seq<byte>)
    ensures CutL2(pkt).Some? <==>
              && Ipv4At14(pkt)
              && var ihl := 4 * (pkt[14] % 16) as int;
                 var seg := pkt[14 + ihl..];
                 var known := pkt[23] == 6 || pkt[23] == 17;
                 && (known ==> TransportHdrSize(seg, pkt[23]).Some?)
                 && var th := if known then TransportHdrSize(seg, pkt[23]).value else 0;
                    |seg| > th && ihl + th + (|seg| - th) / 2 <= 2048
    ensures CutL2(pkt).Some? ==>
              var ihl := 4 * (pkt[14] % 16) as int;
              var th := if pkt[23] == 6 || pkt[23] == 17 then TransportHdrSize(pkt[14 + ihl..], pkt[23]).value else 0;
              var h := CutL2(pkt).value;
              && h.first + h.second == pkt[14..]
              && ihl + th <= |h.first| && 0 <= |h.second| - (|h.first| - ihl - th) <= 1
  {
    hide TransportHdrSize;
    if Ipv4At14(pkt) {
      var ihl := Ihl(pkt, 14);
      var th := if IsTransport(pkt[23]) then TransportHdrSize(pkt[14 + ihl..], pkt[23]) else Some(0);
      if th.Some? {
        var rest := |pkt| - 14 - ihl - th.value;
        assert rest >= 0 ==> 0 <= rest - 2 * (rest / 2) <= 1;
        var n := ihl + th.value + rest / 2;
        if rest >= 0 {
          assert pkt[14..][..n] + pkt[14..][n..] == pkt[14..];
        }
      }
    }
  }
}
