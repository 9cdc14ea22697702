/**
 * What the host that a decrypted packet is for makes of it. A receiver takes the transport segment
 * from the IPv4 total length (RFC 791 section 3.1, RFC 9293 section 3.1, RFC 768); the program takes
 * everything up to the end of the frame. The two differ for frames with Ethernet padding.
 */
module Receiver {
  import opened Bytes
  import opened Checksum
  import opened PacketCrypto
  import opened Layer3
  import opened Layer3Packet
  import opened Layer4

  // ---- what a receiver accepts ----

  /** The IPv4 total length lies between the header and the end of the frame. */
  predicate Framed(pkt: seq<byte>) {
    Ipv4At14(pkt) && Ihl(pkt, 14) <= TotalLength(pkt) <= |pkt| - 14
  }

  function IpHeader(pkt: seq<byte>): (h: seq<byte>)
    requires Ipv4At14(pkt)
    ensures |h| == Ihl(pkt, 14) >= 20
  {
    pkt[14..14 + Ihl(pkt, 14)]
  }

  /** The transport segment the total length delimits. */
  function Segment(pkt: seq<byte>): (s: seq<byte>)
    requires Framed(pkt)
    ensures |s| == TotalLength(pkt) - Ihl(pkt, 14)
  {
    pkt[14 + Ihl(pkt, 14)..14 + TotalLength(pkt)]
  }

  /** What the frame carries behind the datagram. */
  function Padding(pkt: seq<byte>): (s: seq<byte>)
    requires Framed(pkt)
    ensures |s| == |pkt| - 14 - TotalLength(pkt)
  {
    pkt[14 + TotalLength(pkt)..]
  }

  /** Neither a fragment nor the first of several. */
  predicate Whole(pkt: seq<byte>)
    requires |pkt| >= 34
  {
    Be16(pkt[20], pkt[21]) % 0x4000 == 0
  }

  function UdpField(seg: seq<byte>): u16
    requires |seg| >= 8
  {
    Be16(seg[4], seg[5])
  }

  /** A UDP length the segment can hold. */
  predicate UdpSized(seg: seq<byte>) {
    |seg| >= 8 && 8 <= UdpField(seg) <= |seg|
  }

  predicate UdpVerifies(ip: seq<byte>, seg: seq<byte>)
    requires |ip| >= 20 && UdpSized(seg)
  {
    Verifies(PseudoSum(ip, 17, UdpField(seg)) + WordSum(seg[..UdpField(seg)]))
  }

  /** A TCP checksum always counts, a UDP checksum of zero means that there is none. */
  predicate SegmentAccepted(ip: seq<byte>, proto: byte, seg: seq<byte>)
    requires |ip| >= 20 && |seg| <= 0xFFFF
  {
    && (proto == 6 ==> |seg| >= 20 && Verifies(PseudoSum(ip, 6, |seg|) + WordSum(seg)))
    && (proto == 17 ==> UdpSized(seg) && (Be16(seg[6], seg[7]) == 0 || UdpVerifies(ip, seg)))
  }

  /** A receiver of whole datagrams passes the packet up. */
  predicate Accepted(pkt: seq<byte>) {
    && Framed(pkt) && Whole(pkt) && Verifies(WordSum(IpHeader(pkt)))
    && SegmentAccepted(IpHeader(pkt), pkt[ProtoAt], Segment(pkt))
  }

  // ---- sums ----

  /** What follows the first n octets, with the alignment it has there. */
  function Aligned(n: nat, rest: seq<byte>): seq<byte> {
    if n % 2 == 0 then rest else [0] + rest
  }

  /** What the octets behind the first n add to the sum that the checksum is taken of. */
  function Excess(n: nat, rest: seq<byte>): nat {
    |rest| + WordSum(Aligned(n, rest))
  }

  lemma OddJoin(x: byte, t: seq<byte>)
    ensures WordSum([x] + t) == WordSum([x]) + WordSum([0] + t)
  {
    if t != [] {
      assert ([x] + t)[2..] == t[1..] && ([0] + t)[2..] == t[1..];
    }
  }

  lemma WordSumSplitOdd(a: seq<byte>, x: byte, t: seq<byte>)
    requires |a| % 2 == 0
    ensures WordSum(a + ([x] + t)) == WordSum(a + [x]) + WordSum([0] + t)
  {
    hide WordSum;
    WordSumConcat(a, [x]);
    WordSumConcat(a, [x] + t);
    OddJoin(x, t);
  }

  lemma WordSumJoin(head: seq<byte>, t: seq<byte>)
    ensures WordSum(head + t) == WordSum(head) + WordSum(Aligned(|head|, t))
  {
    hide WordSum;
    if |head| % 2 == 0 {
      WordSumConcat(head, t);
    } else {
      var a, x := head[..|head| - 1], head[|head| - 1];
      assert head == a + [x];
      assert head + t == a + ([x] + t);
      WordSumSplitOdd(a, x, t);
    }
  }

  /** Taking a longer segment adds the excess of what it has more. */
  lemma LongerSum(ip: seq<byte>, seg: seq<byte>, n: nat)
    requires |ip| >= 20 && n <= |seg| <= 0xFFFF
    ensures PseudoSum(ip, 6, |seg|) + WordSum(seg) == PseudoSum(ip, 6, n) + WordSum(seg[..n]) + Excess(n, seg[n..])
    ensures PseudoSum(ip, 6, n) > 0
  {
    hide WordSum;
    assert seg == seg[..n] + seg[n..];
    WordSumJoin(seg[..n], seg[n..]);
  }

  lemma SumsAgree(x: nat, y: nat, d: nat)
    requires x == y + d && y > 0
    ensures Verifies(x) && Verifies(y) ==> d % 0xFFFF == 0
    ensures d % 0xFFFF == 0 ==> (Verifies(x) <==> Verifies(y))
  {
    hide Fold;
    hide Verifies;
    VerifiesExactly(x);
    VerifiesExactly(y);
    if d % 0xFFFF == 0 {
      assert d == 0 + d / 0xFFFF * 0xFFFF;
      ModAddMultiple(y, d / 0xFFFF);
    } else if x % 0xFFFF == 0 && y % 0xFFFF == 0 {
      assert x == x / 0xFFFF * 0xFFFF && y == y / 0xFFFF * 0xFFFF;
      var q := x / 0xFFFF - y / 0xFFFF;
      assert d == q * 0xFFFF;
      ModAddMultiple(0, q);
    }
  }

  /** A checksum right for one length is right for the other exactly when the excess is a multiple of 0xFFFF. */
  lemma OtherLength(ip: seq<byte>, seg: seq<byte>, n: nat)
    requires |ip| >= 20 && n <= |seg| <= 0xFFFF
    ensures var long := Verifies(PseudoSum(ip, 6, |seg|) + WordSum(seg));
            var short := Verifies(PseudoSum(ip, 6, n) + WordSum(seg[..n]));
            var same := Excess(n, seg[n..]) % 0xFFFF == 0;
            (long && short ==> same) && (same ==> (long <==> short))
  {
    hide WordSum;
    hide PseudoSum;
    hide Verifies;
    hide Excess;
    LongerSum(ip, seg, n);
    SumsAgree(PseudoSum(ip, 6, |seg|) + WordSum(seg), PseudoSum(ip, 6, n) + WordSum(seg[..n]), Excess(n, seg[n..]));
  }

  // ---- zero padding ----

  function Zeros(k: nat): (z: seq<byte>)
    ensures |z| == k
  {
    seq(k, _ => 0)
  }

  lemma {:induction false} ZerosSum(k: nat)
    ensures WordSum(Zeros(k)) == 0
  {
    if k >= 2 {
      assert Zeros(k)[2..] == Zeros(k - 2);
      ZerosSum(k - 2);
    }
  }

  /** Zero padding of 1 to 65534 octets always shows. */
  lemma ZerosShow(n: nat, k: nat)
    requires 0 < k < 0xFFFF
    ensures Excess(n, Zeros(k)) % 0xFFFF != 0
  {
    assert [0] + Zeros(k) == Zeros(k + 1);
    ZerosSum(k);
    ZerosSum(k + 1);
  }

  // ---- after layer 3 ----

  /** The transport part of a packet the layer-3 decryption returns: all of the frame is covered. */
  predicate Rebuilt(r: seq<byte>) {
    && Ipv4At14(r) && |r| - 14 - Ihl(r, 14) <= 0xFFFF && Verifies(WordSum(IpHeader(r)))
    && var rest := r[14 + Ihl(r, 14)..];
       Covered(rest, r[ProtoAt]).Some? ==>
         var len := Covered(rest, r[ProtoAt]).value.0;
         Verifies(PseudoSum(IpHeader(r), r[ProtoAt], len) + WordSum(rest[..len]))
  }

  lemma SegmentOfRest(r: seq<byte>)
    requires Framed(r)
    ensures var rest, n := r[14 + Ihl(r, 14)..], TotalLength(r) - Ihl(r, 14);
            n <= |rest| && Segment(r) == rest[..n] && Padding(r) == rest[n..]
  {
    hide Ihl;
    hide TotalLength;
  }

  /** What a receiver of a rebuilt packet needs besides its header. */
  predicate FitsReceiver(r: seq<byte>)
    requires Framed(r)
  {
    && (r[ProtoAt] == 6 ==> |Segment(r)| >= 20 && Excess(|Segment(r)|, Padding(r)) % 0xFFFF == 0)
    && (r[ProtoAt] == 17 ==> UdpSized(Segment(r)))
  }

  lemma RebuiltTcp(r: seq<byte>)
    requires Rebuilt(r) && Framed(r) && r[ProtoAt] == 6
    ensures SegmentAccepted(IpHeader(r), 6, Segment(r)) <==> FitsReceiver(r)
  {
    hide WordSum;
    hide PseudoSum;
    hide Fold;
    hide Excess;
    hide IpHeader;
    hide TotalLength;
    hide Ihl;
    SegmentOfRest(r);
    var rest := r[14 + Ihl(r, 14)..];
    assert rest[..|rest|] == rest;
    OtherLength(IpHeader(r), rest, |Segment(r)|);
  }

  lemma RebuiltUdp(r: seq<byte>)
    requires Rebuilt(r) && Framed(r) && r[ProtoAt] == 17
    ensures SegmentAccepted(IpHeader(r), 17, Segment(r)) <==> FitsReceiver(r)
  {
    hide WordSum;
    hide PseudoSum;
    hide Fold;
    hide IpHeader;
    hide TotalLength;
    hide Ihl;
    SegmentOfRest(r);
    if UdpSized(Segment(r)) {
      var rest, n := r[14 + Ihl(r, 14)..], UdpField(Segment(r));
      assert rest[4] == Segment(r)[4] && rest[5] == Segment(r)[5];
      assert rest[..n] == Segment(r)[..n];
    }
  }

  lemma RebuiltAccepted(r: seq<byte>)
    requires Rebuilt(r)
    ensures Accepted(r) <==> Framed(r) && Whole(r) && FitsReceiver(r)
  {
    hide WordSum;
    hide PseudoSum;
    hide Fold;
    hide IpHeader;
    hide Whole;
    hide Excess;
    hide Covered;
    if Framed(r) {
      if r[ProtoAt] == 6 {
        RebuiltTcp(r);
      } else if r[ProtoAt] == 17 {
        RebuiltUdp(r);
      }
    }
  }

  /**
   * What layer-3 decryption returns is accepted exactly when its total length fits the frame, it is
   * not a fragment, and - for TCP - what the frame carries behind the datagram adds a multiple of
   * 0xFFFF to the sum. For UDP the length field decides.
   */
  lemma DecryptedAcceptedExactly(aes: Aes, p: Params, ctx: Ctx, pkt: seq<byte>)
    requires p.Valid() && |pkt| <= 0xFFFF && DecryptResultL3(aes, p, ctx, pkt).Rewritten?
    ensures var r := DecryptResultL3(aes, p, ctx, pkt).pkt;
            Accepted(r) <==> Framed(r) && Whole(r) && FitsReceiver(r)
  {
    hide Accepted;
    hide Framed;
    hide FitsReceiver;
    DecryptedIsRebuilt(aes, p, ctx, pkt);
    RebuiltAccepted(DecryptResultL3(aes, p, ctx, pkt).pkt);
  }

  lemma DecryptedIsRebuilt(aes: Aes, p: Params, ctx: Ctx, pkt: seq<byte>)
    requires p.Valid() && |pkt| <= 0xFFFF && DecryptResultL3(aes, p, ctx, pkt).Rewritten?
    ensures Rebuilt(DecryptResultL3(aes, p, ctx, pkt).pkt)
  {
    hide WordSum;
    hide Fold;
    hide PatchIpv4;
    hide Rechecked;
    hide OpenFor;
    hide PseudoSum;
    hide TotalLength;
    hide Covered;
    var at := 14 + Ihl(pkt, 14);
    var proto := pkt[at + p.nonceSize + 1];
    var plain := OpenFor(aes, p, ctx, pkt[at..at + p.nonceSize], pkt[at + p.TunnelHdrSize()..], Some(proto)).value;
    RestoredIsRebuilt(pkt[..at], proto, (TotalLength(pkt) - p.TunnelHdrSize() - p.TagLen()) % 0x1_0000, plain);
  }

  lemma RestoredIsRebuilt(head: seq<byte>, proto: byte, total: u16, plain: seq<byte>)
    requires Ipv4At14(head) && |head| == 14 + Ihl(head, 14) && |plain| <= 0xFFFF
    ensures var r := Restored(head, proto, total, plain);
            && Ipv4At14(r) && Rebuilt(r) && r[ProtoAt] == proto && TotalLength(r) == total
            && Ihl(r, 14) == Ihl(head, 14)
            && r[20] == head[20] && r[21] == head[21]
            && r[|head|..] == Rechecked(IpHeader(r), proto, plain)
  {
    hide WordSum;
    hide Fold;
    hide Rechecked;
    hide PatchIpv4;
    hide PseudoSum;
    hide Covered;
    var ihl := Ihl(head, 14);
    var named := head[ProtoAt := proto];
    var h := PatchIpv4(named, 14, ihl, total);
    PatchedHeaderVerifies(named, 14, ihl, total);
    PatchOthers(named, 14, ihl, total, 12);
    PatchOthers(named, 14, ihl, total, 13);
    PatchOthers(named, 14, ihl, total, 14);
    PatchOthers(named, 14, ihl, total, 20);
    PatchOthers(named, 14, ihl, total, 21);
    PatchOthers(named, 14, ihl, total, ProtoAt);
    var seg := Rechecked(h[14..], proto, plain);
    var r := Restored(head, proto, total, plain);
    assert h[14..14 + ihl] == h[14..] && h[14..][2] == h[16] && h[14..][3] == h[17];
    assert r[14..14 + ihl] == h[14..] && r[14 + ihl..] == seg && r[16] == h[16] && r[17] == h[17];
    if Covered(plain, proto).Some? {
      RecheckedVerifies(h[14..], proto, plain);
    } else {
      RecheckedNothing(h[14..], proto, plain);
    }
  }

  // ---- through layer 3 ----

  lemma RecheckedOthers(ip: seq<byte>, proto: byte, seg: seq<byte>, k: nat)
    requires |ip| >= 20 && k < |seg| <= 0xFFFF
    requires (proto == 6 ==> k != 16 && k != 17) && (proto == 17 ==> k != 6 && k != 7)
    ensures Rechecked(ip, proto, seg)[k] == seg[k]
  {
    hide SegmentChecksum;
  }

  /** pkt restored from its own parts. */
  function Repaired(pkt: seq<byte>): (r: seq<byte>)
    requires Ipv4At14(pkt) && |pkt| <= 0xFFFF
    ensures |r| == |pkt|
  {
    var at := 14 + Ihl(pkt, 14);
    HeadOf(pkt);
    Restored(pkt[..at], pkt[ProtoAt], TotalLength(pkt), pkt[at..])
  }

  lemma RepairedParts(pkt: seq<byte>)
    requires Ipv4At14(pkt) && |pkt| <= 0xFFFF
    ensures var r, at := Repaired(pkt), 14 + Ihl(pkt, 14);
            && Ipv4At14(r) && Rebuilt(r) && r[ProtoAt] == pkt[ProtoAt] && TotalLength(r) == TotalLength(pkt)
            && Ihl(r, 14) == Ihl(pkt, 14) && (Whole(r) <==> Whole(pkt))
            && r[at..] == Rechecked(IpHeader(r), pkt[ProtoAt], pkt[at..])
  {
    hide Rebuilt;
    hide Restored;
    hide Rechecked;
    hide TotalLength;
    hide Ihl;
    HeadOf(pkt);
    RestoredIsRebuilt(pkt[..14 + Ihl(pkt, 14)], pkt[ProtoAt], TotalLength(pkt), pkt[14 + Ihl(pkt, 14)..]);
  }

  lemma RepairedPadding(pkt: seq<byte>)
    requires Framed(pkt) && |pkt| <= 0xFFFF && Framed(Repaired(pkt)) && pkt[ProtoAt] == 6 && |Segment(pkt)| >= 20
    ensures Padding(Repaired(pkt)) == Padding(pkt)
  {
    hide Rebuilt;
    hide Repaired;
    hide Rechecked;
    hide TotalLength;
    hide Ihl;
    var r, at, n := Repaired(pkt), 14 + Ihl(pkt, 14), |Segment(pkt)|;
    RepairedParts(pkt);
    SegmentOfRest(pkt);
    SegmentOfRest(r);
    forall k | n <= k < |pkt| - at
      ensures r[at..][k] == pkt[at..][k]
    {
      RecheckedOthers(IpHeader(r), 6, pkt[at..], k);
    }
    assert r[at..][n..] == pkt[at..][n..];
  }

  lemma RepairedUdp(pkt: seq<byte>)
    requires Framed(pkt) && |pkt| <= 0xFFFF && Framed(Repaired(pkt)) && pkt[ProtoAt] == 17
    requires |Segment(pkt)| == |Segment(Repaired(pkt))| >= 8
    ensures UdpField(Segment(Repaired(pkt))) == UdpField(Segment(pkt))
  {
    hide Rebuilt;
    hide Repaired;
    hide Rechecked;
    hide TotalLength;
    hide Ihl;
    var r, at := Repaired(pkt), 14 + Ihl(pkt, 14);
    RepairedParts(pkt);
    SegmentOfRest(pkt);
    SegmentOfRest(r);
    RecheckedOthers(IpHeader(r), 17, pkt[at..], 4);
    RecheckedOthers(IpHeader(r), 17, pkt[at..], 5);
  }

  /** Restoring a packet leaves alone what a receiver goes by, apart from the checksums. */
  lemma RepairedFraming(pkt: seq<byte>)
    requires Framed(pkt) && |pkt| <= 0xFFFF
    ensures var r := Repaired(pkt);
            && Framed(r) && Rebuilt(r) && r[ProtoAt] == pkt[ProtoAt] && (Whole(r) <==> Whole(pkt))
            && |Segment(r)| == |Segment(pkt)|
            && (r[ProtoAt] == 6 && |Segment(r)| >= 20 ==> Padding(r) == Padding(pkt))
            && (r[ProtoAt] == 17 && |Segment(r)| >= 8 ==> UdpField(Segment(r)) == UdpField(Segment(pkt)))
  {
    hide Rebuilt;
    hide Repaired;
    hide Rechecked;
    hide TotalLength;
    hide Ihl;
    hide UdpField;
    RepairedParts(pkt);
    if pkt[ProtoAt] == 6 && |Segment(pkt)| >= 20 {
      RepairedPadding(pkt);
    }
    if pkt[ProtoAt] == 17 && |Segment(pkt)| >= 8 {
      RepairedUdp(pkt);
    }
  }

  lemma HeadOf(pkt: seq<byte>)
    requires Ipv4At14(pkt)
    ensures var head := pkt[..14 + Ihl(pkt, 14)];
            Ipv4At14(head) && Ihl(head, 14) == Ihl(pkt, 14) && head[20] == pkt[20] && head[21] == pkt[21]
  {
  }

  /** The padding, if any, leaves the TCP checksum right for either length. */
  predicate PaddingHarmless(pkt: seq<byte>)
    requires Framed(pkt)
  {
    pkt[ProtoAt] == 6 ==> Excess(|Segment(pkt)|, Padding(pkt)) % 0xFFFF == 0
  }

  /**
   * A packet that its receiver accepts is still accepted after layer-3 encryption and decryption
   * exactly when it is not TCP or its padding adds a multiple of 0xFFFF.
   */
  lemma AcceptanceSurvivesExactly(aes: Aes, p: Params, ctx: Ctx, counter: u32, salt: Salt, pkt: seq<byte>)
    requires p.Valid() && |pkt| + p.TunnelHdrSize() + p.TagLen() <= 0xFFFF
    requires EncryptResultL3(aes, p, ctx, counter, salt, pkt).Rewritten? && Accepted(pkt) && Restorable(p, pkt)
    ensures var back := DecryptResultL3(aes, p, ctx, EncryptResultL3(aes, p, ctx, counter, salt, pkt).pkt);
            back.Rewritten? && (Accepted(back.pkt) <==> PaddingHarmless(pkt))
  {
    hide EncryptResultL3;
    hide DecryptResultL3;
    hide Restored;
    hide Rebuilt;
    hide Whole;
    hide WordSum;
    hide PseudoSum;
    hide Verifies;
    hide Excess;
    hide HeaderCanonical;
    hide SegmentCanonical;
    hide Restorable;
    hide TotalLength;
    RoundTripL3(aes, p, ctx, counter, salt, pkt);
    RepairedFraming(pkt);
    RebuiltAccepted(Repaired(pkt));
  }

  lemma NoPaddingIsHarmless(pkt: seq<byte>)
    requires Framed(pkt) && TotalLength(pkt) == |pkt| - 14
    ensures PaddingHarmless(pkt)
  {
  }

  /** Zero padding never is, for TCP. */
  lemma ZeroPaddingIsNot(pkt: seq<byte>)
    requires Framed(pkt) && |pkt| <= 0xFFFF && pkt[ProtoAt] == 6
    requires Padding(pkt) != [] && forall k :: 0 <= k < |Padding(pkt)| ==> Padding(pkt)[k] == 0
    ensures !PaddingHarmless(pkt)
  {
    hide Excess;
    hide Ihl;
    hide TotalLength;
    assert Padding(pkt) == Zeros(|Padding(pkt)|);
    ZerosShow(|Segment(pkt)|, |Padding(pkt)|);
  }

  // ---- coming back unchanged ----

  /** So a canonical header is one that verifies and does not write zero as 0xFFFF. */
  lemma HeaderCanonicalExactly(head: seq<byte>)
    requires Ipv4At14(head) && |head| == 14 + Ihl(head, 14)
    ensures HeaderCanonical(head) <==> Verifies(WordSum(IpHeader(head))) && Be16(head[24], head[25]) != 0xFFFF
  {
    hide WordSum;
    hide Fold;
    hide Be16;
    var ihl := Ihl(head, 14);
    var u: seq<byte> := Unsummed(head, 14, TotalLength(head))[14..14 + ihl];
    Be16Unique(head[16], head[17], TotalLength(head));
    assert IpHeader(head) == u[10 := head[24]][11 := head[25]];
    WordSumField(u, 10, head[24], head[25]);
    assert u[0] == head[14];
    WordSumPositive(u);
    FieldVerifies(WordSum(u), Be16(head[24], head[25]));
  }

  /** And so is a canonical segment. */
  lemma SegmentCanonicalExactly(ip: seq<byte>, proto: byte, seg: seq<byte>)
    requires |ip| >= 20 && |seg| <= 0xFFFF && Covered(seg, proto).Some?
    ensures var (len, at) := Covered(seg, proto).value;
            SegmentCanonical(ip, proto, seg) <==>
              Verifies(PseudoSum(ip, proto, len) + WordSum(seg[..len])) && Be16(seg[at], seg[at + 1]) != 0xFFFF
  {
    hide WordSum;
    hide Fold;
    hide Be16;
    var (len, at) := Covered(seg, proto).value;
    var zeroed: seq<byte> := seg[at := 0][at + 1 := 0];
    assert seg[..len] == zeroed[..len][at := seg[at]][at + 1 := seg[at + 1]];
    WordSumField(zeroed[..len], at, seg[at], seg[at + 1]);
    FieldVerifies(PseudoSum(ip, proto, len) + WordSum(zeroed[..len]), Be16(seg[at], seg[at + 1]));
  }

  /** Source, destination, protocol and length in network order, as RFC 9293 section 3.1 lays them out. */
  function PseudoHeader(ip: seq<byte>, proto: byte, len: u16): (h: seq<byte>)
    requires |ip| >= 20
    ensures |h| == 12
  {
    ip[12..20] + [0, proto, len / 256, len % 256]
  }

  lemma PseudoSumIsHeader(ip: seq<byte>, proto: byte, len: u16)
    requires |ip| >= 20
    ensures PseudoSum(ip, proto, len) == WordSum(PseudoHeader(ip, proto, len))
  {
    var h := PseudoHeader(ip, proto, len);
    assert h == [h[0], h[1]] + ([h[2], h[3]] + ([h[4], h[5]] + ([h[6], h[7]] + ([h[8], h[9]] + [h[10], h[11]]))));
    WordSumConcat([h[0], h[1]], [h[2], h[3]] + ([h[4], h[5]] + ([h[6], h[7]] + ([h[8], h[9]] + [h[10], h[11]]))));
    WordSumConcat([h[2], h[3]], [h[4], h[5]] + ([h[6], h[7]] + ([h[8], h[9]] + [h[10], h[11]])));
    WordSumConcat([h[4], h[5]], [h[6], h[7]] + ([h[8], h[9]] + [h[10], h[11]]));
    WordSumConcat([h[6], h[7]], [h[8], h[9]] + [h[10], h[11]]);
    WordSumConcat([h[8], h[9]], [h[10], h[11]]);
  }

  /** r is seg with the checksum at at that makes its first len octets and the pseudo-header add up. */
  predicate SegmentStamped(ip: seq<byte>, proto: byte, seg: seq<byte>, r: seq<byte>, len: u16, at: nat)
    requires |ip| >= 20 && at + 2 <= len <= |seg|
  {
    && |r| == |seg| && (forall i :: 0 <= i < |seg| && i != at && i != at + 1 ==> r[i] == seg[i])
    && WordSum(PseudoHeader(ip, proto, len) + r[..len]) % 0xFFFF == 0 && !(r[at] == r[at + 1] == 255)
  }

  /**
   * The rebuild stamps TCP at 16 over the whole segment, UDP at 6 over its length field - no less
   * than 8 and no more than the segment - and changes nothing else.
   */
  lemma RecheckedOutcome(ip: seq<byte>, proto: byte, seg: seq<byte>)
    requires |ip| >= 20 && |seg| <= 0xFFFF
    ensures var r := Rechecked(ip, proto, seg);
            if proto == 6 && |seg| >= 20 then SegmentStamped(ip, 6, seg, r, |seg|, 16)
            else if proto == 17 && |seg| >= 8 then
              var field := seg[4] as int * 256 + seg[5] as int;
              SegmentStamped(ip, 17, seg, r, if field < 8 then 8 else if field > |seg| then |seg| else field, 6)
            else r == seg
  {
    hide WordSum;
    hide Fold;
    if Covered(seg, proto).Some? {
      var (len, at) := Covered(seg, proto).value;
      RecheckedSums(ip, proto, seg, len, at);
    }
  }

  lemma RecheckedSums(ip: seq<byte>, proto: byte, seg: seq<byte>, len: nat, at: nat)
    requires |ip| >= 20 && |seg| <= 0xFFFF && Covered(seg, proto) == Some((len, at))
    ensures SegmentStamped(ip, proto, seg, Rechecked(ip, proto, seg), len, at)
  {
    hide WordSum;
    hide Fold;
    hide PseudoSum;
    hide PseudoHeader;
    hide Be16;
    var r := Rechecked(ip, proto, seg);
    var zeroed: seq<byte> := seg[at := 0][at + 1 := 0];
    var c := SegmentChecksum(ip, proto, zeroed, len);
    assert r == zeroed[at := Hi(c)][at + 1 := Lo(c)];
    assert r[..len] == zeroed[..len][at := Hi(c)][at + 1 := Lo(c)];
    WordSumField(zeroed[..len], at, Hi(c), Lo(c));
    Be16Unique(Hi(c), Lo(c), c);
    Be16Unique(Hi(c), Lo(c), 0xFFFF);
    PseudoSumIsHeader(ip, proto, len);
    PseudoSumPositive(ip, proto, len);
    FieldVerifies(PseudoSum(ip, proto, len) + WordSum(zeroed[..len]), c);
    VerifiesExactly(PseudoSum(ip, proto, len) + WordSum(r[..len]));
    WordSumConcat(PseudoHeader(ip, proto, len), r[..len]);
  }

  lemma PseudoSumPositive(ip: seq<byte>, proto: byte, len: u16)
    requires |ip| >= 20 && len > 0
    ensures PseudoSum(ip, proto, len) > 0
  {
  }

  /** Nothing in an accepted packet is for layer 3 to change. */
  predicate NothingToRepair(pkt: seq<byte>)
    requires Accepted(pkt)
  {
    && Be16(pkt[24], pkt[25]) != 0xFFFF && PaddingHarmless(pkt)
    && (pkt[ProtoAt] == 6 ==> Be16(Segment(pkt)[16], Segment(pkt)[17]) != 0xFFFF)
    && (pkt[ProtoAt] == 17 ==>
         UdpVerifies(IpHeader(pkt), Segment(pkt)) && Be16(Segment(pkt)[6], Segment(pkt)[7]) != 0xFFFF)
  }

  lemma RepairsTcp(pkt: seq<byte>)
    requires Accepted(pkt) && |pkt| <= 0xFFFF && pkt[ProtoAt] == 6
    ensures SegmentCanonical(IpHeader(pkt), 6, pkt[14 + Ihl(pkt, 14)..])
       <==> PaddingHarmless(pkt) && Be16(Segment(pkt)[16], Segment(pkt)[17]) != 0xFFFF
  {
    hide WordSum;
    hide PseudoSum;
    hide Verifies;
    hide Excess;
    hide SegmentCanonical;
    hide Be16;
    hide Ihl;
    hide TotalLength;
    hide IpHeader;
    SegmentOfRest(pkt);
    var rest := pkt[14 + Ihl(pkt, 14)..];
    assert rest[..|rest|] == rest;
    OtherLength(IpHeader(pkt), rest, |Segment(pkt)|);
    SegmentCanonicalExactly(IpHeader(pkt), 6, rest);
  }

  lemma RepairsUdp(pkt: seq<byte>)
    requires Accepted(pkt) && |pkt| <= 0xFFFF && pkt[ProtoAt] == 17
    ensures SegmentCanonical(IpHeader(pkt), 17, pkt[14 + Ihl(pkt, 14)..])
       <==> UdpVerifies(IpHeader(pkt), Segment(pkt)) && Be16(Segment(pkt)[6], Segment(pkt)[7]) != 0xFFFF
  {
    hide WordSum;
    hide PseudoSum;
    hide Verifies;
    hide SegmentCanonical;
    hide Be16;
    hide Ihl;
    hide TotalLength;
    hide IpHeader;
    SegmentOfRest(pkt);
    var rest := pkt[14 + Ihl(pkt, 14)..];
    assert rest[..UdpField(rest)] == Segment(pkt)[..UdpField(rest)];
    SegmentCanonicalExactly(IpHeader(pkt), 17, rest);
  }

  /**
   * An accepted packet comes back from layer 3 as it was exactly when none of its checksums writes
   * zero as 0xFFFF, its padding is harmless, and a UDP checksum is there and right.
   */
  lemma ComesBackExactly(aes: Aes, p: Params, ctx: Ctx, counter: u32, salt: Salt, pkt: seq<byte>)
    requires p.Valid() && |pkt| + p.TunnelHdrSize() + p.TagLen() <= 0xFFFF
    requires EncryptResultL3(aes, p, ctx, counter, salt, pkt).Rewritten? && Accepted(pkt) && Restorable(p, pkt)
    ensures DecryptResultL3(aes, p, ctx, EncryptResultL3(aes, p, ctx, counter, salt, pkt).pkt) == Rewritten(pkt)
       <==> NothingToRepair(pkt)
  {
    hide EncryptResultL3;
    hide DecryptResultL3;
    hide Restored;
    hide WordSum;
    hide PseudoSum;
    hide Verifies;
    hide Excess;
    hide HeaderCanonical;
    hide SegmentCanonical;
    hide Restorable;
    hide TotalLength;
    hide Be16;
    RoundTripL3(aes, p, ctx, counter, salt, pkt);
    HeadOf(pkt);
    HeaderCanonicalExactly(pkt[..14 + Ihl(pkt, 14)]);
    assert IpHeader(pkt[..14 + Ihl(pkt, 14)]) == IpHeader(pkt);
    if pkt[ProtoAt] == 6 {
      RepairsTcp(pkt);
    } else if pkt[ProtoAt] == 17 {
      RepairsUdp(pkt);
    } else {
      OtherProtocol(IpHeader(pkt), pkt[ProtoAt], pkt[14 + Ihl(pkt, 14)..]);
    }
  }

  lemma OtherProtocol(ip: seq<byte>, proto: byte, seg: seq<byte>)
    requires |ip| >= 20 && |seg| <= 0xFFFF && proto != 6 && proto != 17
    ensures SegmentCanonical(ip, proto, seg)
  {
  }

  // ---- through layer 4, and through any reassembly ----

  lemma PseudoSumOf(a: seq<byte>, b: seq<byte>, proto: byte, len: u16)
    requires |a| >= 20 && |b| >= 20 && a[12..20] == b[12..20]
    ensures PseudoSum(a, proto, len) == PseudoSum(b, proto, len)
  {
    assert forall k :: 0 <= k < 8 ==> a[12..20][k] == a[12 + k] && b[12..20][k] == b[12 + k];
    assert a[12..20][0] == b[12..20][0] && a[12..20][1] == b[12..20][1] && a[12..20][2] == b[12..20][2];
    assert a[12..20][3] == b[12..20][3] && a[12..20][4] == b[12..20][4] && a[12..20][5] == b[12..20][5];
    assert a[12..20][6] == b[12..20][6] && a[12..20][7] == b[12..20][7];
  }

  lemma Addresses(pkt: seq<byte>)
    requires Ipv4At14(pkt)
    ensures IpHeader(pkt)[12..20] == pkt[26..34]
  {
    SliceOfSlice(pkt, 14, 14 + Ihl(pkt, 14), 12, 20);
  }

  /** The canonical form takes all of the frame for the datagram. */
  lemma CanonicalParts(pkt: seq<byte>)
    requires Framed(pkt) && |pkt| - 14 <= 0xFFFF
    ensures var c := Canonical(pkt, 14);
            && |c| == |pkt| && Framed(c) && TotalLength(c) == |pkt| - 14 && Ihl(c, 14) == Ihl(pkt, 14)
            && Verifies(WordSum(IpHeader(c))) && c[ProtoAt] == pkt[ProtoAt] && (Whole(c) <==> Whole(pkt))
            && IpHeader(c)[12..20] == IpHeader(pkt)[12..20] && Segment(c) == pkt[14 + Ihl(pkt, 14)..]
  {
    hide PatchIpv4;
    hide WordSum;
    hide Fold;
    var ihl, total := Ihl(pkt, 14), |pkt| - 14;
    var c := PatchIpv4(pkt, 14, ihl, total);
    PatchedHeaderVerifies(pkt, 14, ihl, total);
    forall i | 0 <= i < |pkt| && i != 16 && i != 17 && i != 24 && i != 25
      ensures c[i] == pkt[i]
    {
      PatchOthers(pkt, 14, ihl, total, i);
    }
    assert c[14..14 + ihl][2] == c[16] && c[14..14 + ihl][3] == c[17];
    assert c[14 + ihl..] == pkt[14 + ihl..];
    Addresses(c);
    Addresses(pkt);
    assert c[26..34] == pkt[26..34];
  }

  lemma CanonicalTcp(pkt: seq<byte>)
    requires Accepted(pkt) && |pkt| - 14 <= 0xFFFF && pkt[ProtoAt] == 6 && Framed(Canonical(pkt, 14))
    ensures var c := Canonical(pkt, 14);
            SegmentAccepted(IpHeader(c), 6, Segment(c)) <==> PaddingHarmless(pkt)
  {
    hide WordSum;
    hide PseudoSum;
    hide Verifies;
    hide Excess;
    hide Canonical;
    hide IpHeader;
    hide TotalLength;
    hide Ihl;
    hide SegmentAccepted;
    CanonicalParts(pkt);
    SegmentOfRest(pkt);
    var c, rest := Canonical(pkt, 14), pkt[14 + Ihl(pkt, 14)..];
    TcpAcceptedExactly(IpHeader(c), rest);
    TcpAcceptedExactly(IpHeader(pkt), Segment(pkt));
    PseudoSumOf(IpHeader(c), IpHeader(pkt), 6, |rest|);
    OtherLength(IpHeader(pkt), rest, |Segment(pkt)|);
  }

  lemma TcpAcceptedExactly(ip: seq<byte>, seg: seq<byte>)
    requires |ip| >= 20 && |seg| <= 0xFFFF
    ensures SegmentAccepted(ip, 6, seg) <==> |seg| >= 20 && Verifies(PseudoSum(ip, 6, |seg|) + WordSum(seg))
  {
    hide PseudoSum;
    hide WordSum;
    hide Verifies;
  }

  lemma CanonicalUdp(pkt: seq<byte>)
    requires Accepted(pkt) && |pkt| - 14 <= 0xFFFF && pkt[ProtoAt] == 17 && Framed(Canonical(pkt, 14))
    ensures SegmentAccepted(IpHeader(Canonical(pkt, 14)), 17, Segment(Canonical(pkt, 14)))
  {
    hide WordSum;
    hide PseudoSum;
    hide Verifies;
    hide Canonical;
    hide IpHeader;
    hide TotalLength;
    hide Ihl;
    CanonicalParts(pkt);
    SegmentOfRest(pkt);
    var c, seg := Canonical(pkt, 14), Segment(pkt);
    var rest, n := Segment(c), UdpField(Segment(pkt));
    assert rest[..|seg|] == seg;
    assert rest[4] == seg[4] && rest[5] == seg[5] && rest[6] == seg[6] && rest[7] == seg[7];
    assert rest[..n] == seg[..n];
    PseudoSumOf(IpHeader(c), IpHeader(pkt), 17, n);
  }

  /**
   * Layer 4 and the reassembly at layers 2 and 4 return canonical packets: the canonical form of an
   * accepted packet is accepted under the same condition on its padding.
   */
  lemma CanonicalAcceptedExactly(pkt: seq<byte>)
    requires Accepted(pkt) && |pkt| - 14 <= 0xFFFF
    ensures Accepted(Canonical(pkt, 14)) <==> PaddingHarmless(pkt)
  {
    hide WordSum;
    hide PseudoSum;
    hide Verifies;
    hide Excess;
    hide Canonical;
    hide IpHeader;
    hide TotalLength;
    hide Ihl;
    hide Whole;
    CanonicalParts(pkt);
    if pkt[ProtoAt] == 6 {
      CanonicalTcp(pkt);
    } else if pkt[ProtoAt] == 17 {
      CanonicalUdp(pkt);
    }
  }

  /** For packets without VLAN tags, so does layer 4 as a whole. */
  lemma AcceptanceSurvivesL4(aes: Aes, p: Params, ctx: Ctx, counter: u32, salt: Salt, pkt: seq<byte>)
    requires p.Valid() && |pkt| - 14 <= 0xFFFF && Accepted(pkt)
    requires EncryptResult(aes, p, ctx, counter, salt, pkt).Rewritten?
    ensures var back := DecryptResult(aes, p, ctx, EncryptResult(aes, p, ctx, counter, salt, pkt).pkt);
            back.Rewritten? && (Accepted(back.pkt) <==> PaddingHarmless(pkt))
  {
    hide EncryptResult;
    hide DecryptResult;
    hide Accepted;
    hide PaddingHarmless;
    hide Canonical;
    AcceptedAt14(pkt);
    RoundTrip(aes, p, ctx, counter, salt, pkt);
    CanonicalAcceptedExactly(pkt);
  }

  lemma AcceptedAt14(pkt: seq<byte>)
    requires Accepted(pkt)
    ensures Framed(pkt) && Ipv4Offset(pkt) == Some(14) && (L3Fits(pkt) ==> TransportInside(pkt))
  {
    hide WordSum;
    hide Fold;
    hide SegmentAccepted;
  }

  // ---- a short frame ----

  /** A TCP segment without data from port 1 to port 1, checksum included, padded to the least Ethernet size. */
  function ShortAck(): (pkt: seq<byte>)
    ensures |pkt| == 60
  {
    var head := seq(34, i => if i == 12 then 8 else if i == 14 then 0x45 else 0);
    var tcp := seq(20, i => if i == 1 || i == 3 then 1 else if i == 12 then 0x50 else if i == 13 then 0x10 else 0);
    Restored(head, 6, 40, tcp) + Zeros(6)
  }

  /** A plain TCP datagram of 40 octets from a port that is not zero, with right checksums. */
  predicate PlainAck(pkt: seq<byte>) {
    && Framed(pkt) && Ihl(pkt, 14) == 20 && TotalLength(pkt) == 40 && pkt[ProtoAt] == 6 && Whole(pkt)
    && Verifies(WordSum(IpHeader(pkt))) && Verifies(PseudoSum(IpHeader(pkt), 6, 20) + WordSum(Segment(pkt)))
    && Segment(pkt)[1] == 1
  }

  lemma ShortAckIsPlain()
    ensures PlainAck(ShortAck()) && Padding(ShortAck()) == Zeros(6)
  {
    hide WordSum;
    hide Fold;
    hide Rechecked;
    hide Restored;
    hide PseudoSum;
    var head := seq(34, i => if i == 12 then 8 else if i == 14 then 0x45 else 0);
    var tcp := seq(20, i => if i == 1 || i == 3 then 1 else if i == 12 then 0x50 else if i == 13 then 0x10 else 0);
    RestoredIsRebuilt(head, 6, 40, tcp);
    var r, pkt := Restored(head, 6, 40, tcp), ShortAck();
    assert pkt[..54] == r && pkt[14..34] == r[14..34] && pkt[34..54] == r[34..] && pkt[54..] == Zeros(6);
    assert r[34..][..20] == r[34..];
    RecheckedOthers(IpHeader(r), 6, tcp, 1);
    assert forall i :: 0 <= i < 54 ==> pkt[i] == r[i];
  }

  lemma PlainAckIsAccepted(pkt: seq<byte>)
    requires PlainAck(pkt)
    ensures Accepted(pkt)
  {
    hide WordSum;
    hide Fold;
    hide PseudoSum;
    hide Ihl;
    hide TotalLength;
  }

  lemma PlainAckIsRestorable(p: Params, pkt: seq<byte>)
    requires PlainAck(pkt)
    ensures Ipv4At14(pkt) && Restorable(p, pkt)
  {
    hide WordSum;
    hide Fold;
    hide PseudoSum;
    hide Ihl;
    hide TotalLength;
    var rest := pkt[14 + Ihl(pkt, 14)..];
    SegmentOfRest(pkt);
    assert rest[1] == Segment(pkt)[1] && rest[..4][1] == rest[1];
  }

  /** A plain datagram with zero padding is accepted as it is, and not after layer 3. */
  lemma PaddedAckIsLost(aes: Aes, p: Params, ctx: Ctx, counter: u32, salt: Salt, pkt: seq<byte>, k: nat)
    requires p.Valid() && PlainAck(pkt) && Padding(pkt) == Zeros(k) && k > 0
    requires |pkt| + p.TunnelHdrSize() + p.TagLen() <= 0xFFFF
    requires EncryptResultL3(aes, p, ctx, counter, salt, pkt).Rewritten?
    ensures var back := DecryptResultL3(aes, p, ctx, EncryptResultL3(aes, p, ctx, counter, salt, pkt).pkt);
            Accepted(pkt) && back.Rewritten? && !Accepted(back.pkt)
  {
    hide EncryptResultL3;
    hide DecryptResultL3;
    hide Accepted;
    hide Restorable;
    hide Verifies;
    hide Excess;
    PlainAckIsAccepted(pkt);
    PlainAckIsRestorable(p, pkt);
    ZeroPaddingIsNot(pkt);
    AcceptanceSurvivesExactly(aes, p, ctx, counter, salt, pkt);
  }

  lemma ShortAckOctet(k: nat)
    requires 2 <= k < 16
    ensures ShortAck()[34 + k] != FragMagicL3
  {
    hide Rechecked;
    hide Restored;
    var head := seq(34, i => if i == 12 then 8 else if i == 14 then 0x45 else 0);
    var tcp := seq(20, i => if i == 1 || i == 3 then 1 else if i == 12 then 0x50 else if i == 13 then 0x10 else 0);
    RestoredIsRebuilt(head, 6, 40, tcp);
    var r := Restored(head, 6, 40, tcp);
    RecheckedOthers(IpHeader(r), 6, tcp, k);
    assert ShortAck()[34 + k] == r[34..][k];
  }

  lemma ShortAckIsEncrypted(aes: Aes, p: Params, ctx: Ctx, counter: u32, salt: Salt)
    requires p.Valid() && ctx.initialized && p.nonceSize <= 14
    ensures EncryptResultL3(aes, p, ctx, counter, salt, ShortAck()).Rewritten?
  {
    hide WirePacketL3;
    hide ShortAck;
    hide WordSum;
    hide Fold;
    hide PseudoSum;
    ShortAckIsPlain();
    ShortAckOctet(p.nonceSize + 1);
  }

  /** The case of a 60-octet frame: whatever the keys, the mode and the nonce. */
  lemma ShortAckIsLost(aes: Aes, p: Params, ctx: Ctx, counter: u32, salt: Salt)
    requires p.Valid() && ctx.initialized && p.nonceSize <= 14
    ensures var o := EncryptResultL3(aes, p, ctx, counter, salt, ShortAck());
            Accepted(ShortAck()) && o.Rewritten? &&
            var back := DecryptResultL3(aes, p, ctx, o.pkt); back.Rewritten? && !Accepted(back.pkt)
  {
    hide EncryptResultL3;
    hide DecryptResultL3;
    hide Accepted;
    hide ShortAck;
    hide PlainAck;
    hide Padding;
    ShortAckIsPlain();
    ShortAckIsEncrypted(aes, p, ctx, counter, salt);
    PaddedAckIsLost(aes, p, ctx, counter, salt, ShortAck(), 6);
  }
}
