/** crypto_layer3_encrypt and crypto_layer3_decrypt, with the transport checksum rebuild. */
module Layer3Packet {
  import opened Bytes
  import opened Checksum
  import opened PacketCrypto
  import opened Layer4
  import opened Layer3

  const TcpChecksumAt := 16
  const UdpChecksumAt := 6

  /** Sum of the pseudo-header words (RFC 9293 section 3.1, RFC 768). */
  function PseudoSum(ip: seq<byte>, proto: byte, len: u16): nat
    requires |ip| >= 20
  {
    Be16(ip[12], ip[13]) + Be16(ip[14], ip[15]) + Be16(ip[16], ip[17]) + Be16(ip[18], ip[19]) + proto + len
  }

  /** Octets of a UDP segment its length field covers, as crypto_calc_udp_checksum clamps it. */
  function UdpLen(seg: seq<byte>): (n: nat)
    requires 8 <= |seg| <= 0xFFFF
    ensures 8 <= n <= |seg|
  {
    var n := Be16(seg[4], seg[5]);
    if n < 8 then 8 else if n > |seg| then |seg| else n
  }

  /** The part of a segment its checksum covers; None when the decrypt does not rebuild one. */
  function Covered(seg: seq<byte>, proto: byte): (r: Option<(nat, nat)>)
    requires |seg| <= 0xFFFF
    ensures r.Some? ==> r.value.1 + 1 < r.value.0 <= |seg|
  {
    if proto == 6 && |seg| >= 20 then Some((|seg|, TcpChecksumAt))
    else if proto == 17 && |seg| >= 8 then Some((UdpLen(seg), UdpChecksumAt))
    else None
  }

  /** The checksum of a segment whose checksum field is zero. */
  function SegmentChecksum(ip: seq<byte>, proto: byte, seg: seq<byte>, len: nat): u16
    requires |ip| >= 20 && len <= |seg| <= 0xFFFF
  {
    Complement(PseudoSum(ip, proto, len) + WordSum(seg[..len]))
  }

  /** The segment with a fresh TCP or UDP checksum. */
  function Rechecked(ip: seq<byte>, proto: byte, seg: seq<byte>): (r: seq<byte>)
    requires |ip| >= 20 && |seg| <= 0xFFFF
    ensures |r| == |seg|
  {
    match Covered(seg, proto)
    case None => seg
    case Some((len, at)) =>
      var zeroed := seg[at := 0][at + 1 := 0];
      var c := SegmentChecksum(ip, proto, zeroed, len);
      zeroed[at := Hi(c)][at + 1 := Lo(c)]
  }

  /** A rebuilt TCP or UDP segment sums to 0xFFFF with its pseudo-header. */
  lemma RecheckedVerifies(ip: seq<byte>, proto: byte, seg: seq<byte>)
    requires |ip| >= 20 && |seg| <= 0xFFFF && Covered(seg, proto).Some?
    ensures var r := Rechecked(ip, proto, seg);
            Covered(r, proto) == Covered(seg, proto) &&
            var (len, at) := Covered(r, proto).value;
            Verifies(PseudoSum(ip, proto, len) + WordSum(r[..len]))
  {
    hide WordSum;
    hide Fold;
    var (len, at) := Covered(seg, proto).value;
    var zeroed: seq<byte> := seg[at := 0][at + 1 := 0];
    var sum := PseudoSum(ip, proto, len) + WordSum(zeroed[..len]);
    var c := Complement(sum);
    assert Rechecked(ip, proto, seg)[..len] == zeroed[..len][at := Hi(c)][at + 1 := Lo(c)];
    WordSumField(zeroed[..len], at, Hi(c), Lo(c));
    ComplementVerifies(sum);
  }

  /** The checksum field, if there is one, holds the checksum of everything else. */
  predicate SegmentCanonical(ip: seq<byte>, proto: byte, seg: seq<byte>)
    requires |ip| >= 20 && |seg| <= 0xFFFF
  {
    match Covered(seg, proto)
    case None => true
    case Some((len, at)) =>
      Be16(seg[at], seg[at + 1]) == SegmentChecksum(ip, proto, seg[at := 0][at + 1 := 0], len)
  }

  /** The header checksum field holds the checksum of the rest of the header. */
  predicate HeaderCanonical(head: seq<byte>)
    requires |head| >= 34 && Ihl(head, 14) >= 20 && 14 + Ihl(head, 14) <= |head|
  {
    Be16(head[24], head[25]) == IpChecksum(Unsummed(head, 14, TotalLength(head))[14..14 + Ihl(head, 14)])
  }

  /** Those are the segments that a rebuild leaves as they are. */
  lemma RecheckedFixedPoint(ip: seq<byte>, proto: byte, seg: seq<byte>)
    requires |ip| >= 20 && |seg| <= 0xFFFF
    ensures Rechecked(ip, proto, seg) == seg <==> SegmentCanonical(ip, proto, seg)
  {
    hide SegmentChecksum;
    hide Covered;
    hide Be16;
    match Covered(seg, proto)
    case None =>
    case Some((len, at)) =>
      var c := SegmentChecksum(ip, proto, seg[at := 0][at + 1 := 0], len);
      Be16Unique(seg[at], seg[at + 1], c);
      var r := Rechecked(ip, proto, seg);
      assert r[at] == Hi(c) && r[at + 1] == Lo(c);
      assert forall k :: 0 <= k < |seg| && k != at && k != at + 1 ==> r[k] == seg[k];
  }

  function TunnelHdrL3(p: Params, nonce: seq<byte>, proto: byte): (h: seq<byte>)
    ensures |h| == |nonce| + 2
  {
    nonce + [p.policyId, proto]
  }

  function TotalLength(pkt: seq<byte>): u16
    requires |pkt| >= 34
  {
    Be16(pkt[16], pkt[17])
  }

  /** The wire form: marker protocol, tunnel header naming the real protocol, sealed payload. */
  function WirePacketL3(aes: Aes, p: Params, key: Key, nonce: seq<byte>, pkt: seq<byte>): (w: seq<byte>)
    requires |nonce| <= IvSize && Ipv4At14(pkt)
    ensures |w| == |pkt| + |nonce| + 2 + p.TagLen()
  {
    var at := 14 + Ihl(pkt, 14);
    PatchIpv4(pkt[..at][ProtoAt := p.fakeProtocol], 14, Ihl(pkt, 14),
              (TotalLength(pkt) + |nonce| + 2 + p.TagLen()) % 0x1_0000)
      + TunnelHdrL3(p, nonce, pkt[ProtoAt]) + Seal(aes, p, key, nonce, pkt[at..])
  }

  /** crypto_layer3_encrypt. */
  function EncryptResultL3(aes: Aes, p: Params, ctx: Ctx, counter: u32, salt: Salt, pkt: seq<byte>): Outcome
    requires p.Valid()
  {
    if !ctx.initialized || |pkt| < 22 then Failed
    else if |pkt| < 34 || EtherTypeAt(pkt, 12) != 0x0800 then Unchanged
    else if !Ipv4At14(pkt) then Failed
    else
      var at := 14 + Ihl(pkt, 14);
      if |pkt| >= at + p.TunnelHdrSize() && pkt[at + p.nonceSize + 1] == FragMagicL3 then Unchanged
      else Rewritten(WirePacketL3(aes, p, ctx.current, Nonce(counter, salt, p.nonceSize), pkt))
  }

  /** Headers with their real protocol and length, then the plaintext with a rebuilt checksum. */
  function Restored(head: seq<byte>, proto: byte, total: u16, plain: seq<byte>): (r: seq<byte>)
    requires |head| >= 34 && Ihl(head, 14) >= 20 && |head| == 14 + Ihl(head, 14) && |plain| <= 0xFFFF
    ensures |r| == |head| + |plain|
  {
    var h := PatchIpv4(head[ProtoAt := proto], 14, Ihl(head, 14), total);
    h + Rechecked(h[14..], proto, plain)
  }

  /** crypto_layer3_decrypt, on packets short enough for a 16-bit segment length. */
  function DecryptResultL3(aes: Aes, p: Params, ctx: Ctx, pkt: seq<byte>): Outcome
    requires p.Valid() && |pkt| <= 0xFFFF
  {
    if !ctx.initialized || |pkt| < 22 then Failed
    else if !Ipv4At14(pkt) then Unchanged
    else
      var at := 14 + Ihl(pkt, 14);
      var bodyAt := at + p.TunnelHdrSize();
      if |pkt| < bodyAt || pkt[at + p.nonceSize + 1] == FragMagicL3 || pkt[ProtoAt] != p.fakeProtocol then Unchanged
      else
        var proto := pkt[at + p.nonceSize + 1];
        match OpenFor(aes, p, ctx, pkt[at..at + p.nonceSize], pkt[bodyAt..], Some(proto))
        case None => Failed
        case Some(plain) =>
          Rewritten(Restored(pkt[..at], proto, (TotalLength(pkt) - p.TunnelHdrSize() - p.TagLen()) % 0x1_0000, plain))
  }

  /** What a decrypted TCP segment's checksum is worth: it verifies, whatever was on the wire. */
  lemma DecryptedSegmentVerifies(aes: Aes, p: Params, ctx: Ctx, pkt: seq<byte>)
    requires p.Valid() && |pkt| <= 0xFFFF
    ensures DecryptResultL3(aes, p, ctx, pkt).Rewritten? ==>
            var r := DecryptResultL3(aes, p, ctx, pkt).pkt;
            var ihl := Ihl(pkt, 14);
            && 34 <= 14 + ihl <= |r| && Verifies(WordSum(r[14..14 + ihl]))
            && var (ip, seg, proto) := (r[14..14 + ihl], r[14 + ihl..], r[ProtoAt]);
               (proto == 6 && |seg| >= 20) || (proto == 17 && |seg| >= 8) ==>
                 Covered(seg, proto).Some? &&
                 Verifies(PseudoSum(ip, proto, Covered(seg, proto).value.0)
                          + WordSum(seg[..Covered(seg, proto).value.0]))
  {
    hide WordSum;
    hide Fold;
    hide OpenFor;
    hide Rechecked;
    hide PatchIpv4;
    hide Covered;
    hide PseudoSum;
    if DecryptResultL3(aes, p, ctx, pkt).Rewritten? {
      var ihl := Ihl(pkt, 14);
      var at := 14 + ihl;
      var proto := pkt[at + p.nonceSize + 1];
      var plain := OpenFor(aes, p, ctx, pkt[at..at + p.nonceSize], pkt[at + p.TunnelHdrSize()..], Some(proto)).value;
      RestoredVerifies(pkt[..at], proto, (TotalLength(pkt) - p.TunnelHdrSize() - p.TagLen()) % 0x1_0000, plain);
    }
  }

  lemma RestoredVerifies(head: seq<byte>, proto: byte, total: u16, plain: seq<byte>)
    requires |head| >= 34 && Ihl(head, 14) >= 20 && |head| == 14 + Ihl(head, 14) && |plain| <= 0xFFFF
    ensures var r := Restored(head, proto, total, plain);
            && Verifies(WordSum(r[14..|head|])) && r[ProtoAt] == proto
            && ((proto == 6 && |plain| >= 20) || (proto == 17 && |plain| >= 8) ==>
                 Covered(r[|head|..], proto).Some? &&
                 var len := Covered(r[|head|..], proto).value.0;
                 Verifies(PseudoSum(r[14..|head|], proto, len) + WordSum(r[|head|..][..len])))
  {
    hide WordSum;
    hide Fold;
    hide Rechecked;
    hide PatchIpv4;
    hide PseudoSum;
    var ihl := Ihl(head, 14);
    var h := PatchIpv4(head[ProtoAt := proto], 14, ihl, total);
    PatchedHeaderVerifies(head[ProtoAt := proto], 14, ihl, total);
    PatchOthers(head[ProtoAt := proto], 14, ihl, total, ProtoAt);
    var seg := Rechecked(h[14..], proto, plain);
    var r := Restored(head, proto, total, plain);
    assert r[14..|head|] == h[14..] == h[14..14 + ihl] && r[|head|..] == seg;
    if Covered(plain, proto).Some? {
      RecheckedVerifies(h[14..], proto, plain);
    }
  }

  /** What a laid-out wire packet decrypts to. */
  lemma DecryptLayoutPacketL3(aes: Aes, p: Params, ctx: Ctx, head: seq<byte>, nonce: seq<byte>, proto: byte,
                              body: seq<byte>)
    requires p.Valid() && ctx.initialized && |nonce| == p.nonceSize
    requires Ipv4At14(head) && |head| == 14 + Ihl(head, 14) && head[ProtoAt] == p.fakeProtocol
    requires |head| + p.TunnelHdrSize() + |body| <= 0xFFFF
    ensures var r := OpenFor(aes, p, ctx, nonce, body, Some(proto));
            DecryptResultL3(aes, p, ctx, head + TunnelHdrL3(p, nonce, proto) + body)
            == if proto == FragMagicL3 then Unchanged
               else if r.None? then Failed
               else Rewritten(Restored(head, proto, (TotalLength(head) - p.TunnelHdrSize() - p.TagLen()) % 0x1_0000,
                                       r.value))
  {
    hide OpenFor;
    hide Restored;
    var w := head + TunnelHdrL3(p, nonce, proto) + body;
    var at := |head|;
    assert w[..at] == head && w[at..at + p.nonceSize] == nonce && w[at + p.TunnelHdrSize()..] == body;
    assert w[at + p.nonceSize + 1] == proto;
    assert Ihl(w, 14) == Ihl(head, 14) && w[ProtoAt] == head[ProtoAt] && w[12] == head[12] && w[13] == head[13];
    assert TotalLength(w) == TotalLength(head);
  }

  /** What was sealed under the current key opens, provided it passes the port check in CTR mode. */
  lemma OpenForSealed(aes: Aes, p: Params, ctx: Ctx, nonce: seq<byte>, plain: seq<byte>, proto: byte)
    requires |nonce| <= IvSize && (p.Gcm() || PortsPlausible(plain, proto))
    ensures OpenFor(aes, p, ctx, nonce, Seal(aes, p, ctx.current, nonce, plain), Some(proto)) == Some(plain)
  {
    hide Stream;
    var c := Stream(aes, p, ctx.current, nonce, plain);
    var body := Seal(aes, p, ctx.current, nonce, plain);
    assert body[..|plain|] == c;
    StreamTwice(aes, p, ctx.current, nonce, plain);
  }

  lemma LengthsCancel(total: u16, overhead: nat)
    ensures ((total + overhead) % 0x1_0000 - overhead) % 0x1_0000 == total
  {
  }

  /** A packet in wire form decrypts to its restored self. */
  lemma WirePacketOpensL3(aes: Aes, p: Params, ctx: Ctx, nonce: seq<byte>, pkt: seq<byte>)
    requires p.Valid() && ctx.initialized && |nonce| == p.nonceSize && Ipv4At14(pkt)
    requires |pkt| + p.TunnelHdrSize() + p.TagLen() <= 0xFFFF && pkt[ProtoAt] != FragMagicL3
    requires p.Gcm() || PortsPlausible(pkt[14 + Ihl(pkt, 14)..], pkt[ProtoAt])
    ensures var w := WirePacketL3(aes, p, ctx.current, nonce, pkt);
            var at := 14 + Ihl(pkt, 14);
            && |w| == |pkt| + p.TunnelHdrSize() + p.TagLen()
            && DecryptResultL3(aes, p, ctx, w)
               == Rewritten(Restored(pkt[..at], pkt[ProtoAt], TotalLength(pkt), pkt[at..]))
  {
    hide Seal;
    hide OpenFor;
    hide PatchIpv4;
    hide DecryptResultL3;
    hide TunnelHdrL3;
    hide Restored;
    hide PortsPlausible;
    hide TotalLength;
    var ihl := Ihl(pkt, 14);
    var at := 14 + ihl;
    var head, plain := pkt[..at], pkt[at..];
    var overhead := p.TunnelHdrSize() + p.TagLen();
    var total := (TotalLength(pkt) + |nonce| + 2 + p.TagLen()) % 0x1_0000;
    var patched := MarkedHead(head, p.fakeProtocol, total);
    OpenForSealed(aes, p, ctx, nonce, plain, pkt[ProtoAt]);
    DecryptLayoutPacketL3(aes, p, ctx, patched, nonce, pkt[ProtoAt], Seal(aes, p, ctx.current, nonce, plain));
    LengthsCancel(TotalLength(pkt), overhead);
    RestoredFromMarked(head, p.fakeProtocol, total, TotalLength(pkt), plain);
  }

  // ---- which packets decrypt ----

  /** What the k-th try of the CTR loop makes of ciphertext c, when those before it were refused. */
  function Tried(aes: Aes, p: Params, ctx: Ctx, nonce: seq<byte>, c: seq<byte>, k: nat): (r: seq<byte>)
    requires |nonce| <= IvSize
    ensures |r| == |c|
  {
    Stream(aes, p, ctx.KeyTried(k), nonce,
           if k == 0 || |c| <= BackupSize then c else Tried(aes, p, ctx, nonce, c, k - 1))
  }

  /** One of the tries shows plausible ports. */
  predicate SomeTry(aes: Aes, p: Params, ctx: Ctx, nonce: seq<byte>, c: seq<byte>, proto: byte)
    requires |nonce| <= IvSize
  {
    || PortsPlausible(Tried(aes, p, ctx, nonce, c, 0), proto)
    || PortsPlausible(Tried(aes, p, ctx, nonce, c, 1), proto)
    || PortsPlausible(Tried(aes, p, ctx, nonce, c, 2), proto)
  }

  lemma OpenFromOnce(aes: Aes, p: Params, ctx: Ctx, nonce: seq<byte>, proto: byte, c: seq<byte>, work: seq<byte>,
                     k: nat)
    requires |nonce| <= IvSize && !p.Gcm() && k < 3 && |work| == |c|
    requires work == if k == 0 then c else Tried(aes, p, ctx, nonce, c, k - 1)
    ensures var out := Tried(aes, p, ctx, nonce, c, k);
            OpenFrom(aes, p, ctx, nonce, [], Some(proto), c, work, k)
            == if PortsPlausible(out, proto) then Some(out)
               else OpenFrom(aes, p, ctx, nonce, [], Some(proto), c, out, k + 1)
  {
    hide Stream;
    hide PortsPlausible;
  }

  /** In CTR mode a body opens exactly when some try shows plausible ports. */
  lemma OpenForExactly(aes: Aes, p: Params, ctx: Ctx, nonce: seq<byte>, c: seq<byte>, proto: byte)
    requires |nonce| <= IvSize && !p.Gcm()
    ensures OpenFor(aes, p, ctx, nonce, c, Some(proto)).Some? <==> SomeTry(aes, p, ctx, nonce, c, proto)
  {
    hide Stream;
    hide PortsPlausible;
    hide Tried;
    assert c[..|c|] == c;
    OpenFromOnce(aes, p, ctx, nonce, proto, c, c, 0);
    OpenFromOnce(aes, p, ctx, nonce, proto, c, Tried(aes, p, ctx, nonce, c, 0), 1);
    OpenFromOnce(aes, p, ctx, nonce, proto, c, Tried(aes, p, ctx, nonce, c, 1), 2);
  }

  /** In GCM mode what was sealed opens, whatever it is. */
  predicate Opens(aes: Aes, p: Params, ctx: Ctx, nonce: seq<byte>, pkt: seq<byte>)
    requires |nonce| <= IvSize && Ipv4At14(pkt)
  {
    p.Gcm() || SomeTry(aes, p, ctx, nonce, Seal(aes, p, ctx.current, nonce, pkt[14 + Ihl(pkt, 14)..]), pkt[ProtoAt])
  }

  /** Which packets in wire form decrypt: not those of the marker protocol, and in CTR mode those some try accepts. */
  lemma WirePacketOutcomeL3(aes: Aes, p: Params, ctx: Ctx, nonce: seq<byte>, pkt: seq<byte>)
    requires p.Valid() && ctx.initialized && |nonce| == p.nonceSize && Ipv4At14(pkt)
    requires |pkt| + p.TunnelHdrSize() + p.TagLen() <= 0xFFFF
    ensures var o := DecryptResultL3(aes, p, ctx, WirePacketL3(aes, p, ctx.current, nonce, pkt));
            && (o.Unchanged? <==> pkt[ProtoAt] == FragMagicL3)
            && (o.Rewritten? <==> pkt[ProtoAt] != FragMagicL3 && Opens(aes, p, ctx, nonce, pkt))
  {
    hide Seal;
    hide OpenFor;
    hide PatchIpv4;
    hide DecryptResultL3;
    hide TunnelHdrL3;
    hide Restored;
    hide PortsPlausible;
    hide TotalLength;
    hide SomeTry;
    var at := 14 + Ihl(pkt, 14);
    var head, plain := pkt[..at], pkt[at..];
    var patched := MarkedHead(head, p.fakeProtocol, (TotalLength(pkt) + |nonce| + 2 + p.TagLen()) % 0x1_0000);
    var body := Seal(aes, p, ctx.current, nonce, plain);
    if p.Gcm() {
      OpenForSealed(aes, p, ctx, nonce, plain, pkt[ProtoAt]);
    } else {
      OpenForExactly(aes, p, ctx, nonce, body, pkt[ProtoAt]);
    }
    DecryptLayoutPacketL3(aes, p, ctx, patched, nonce, pkt[ProtoAt], body);
  }

  /** What round trips: a protocol other than the marker, and in CTR mode ports that are not both zero. */
  predicate Restorable(p: Params, pkt: seq<byte>)
    requires Ipv4At14(pkt)
  {
    pkt[ProtoAt] != FragMagicL3 && (p.Gcm() || PortsPlausible(pkt[14 + Ihl(pkt, 14)..], pkt[ProtoAt]))
  }

  /** The payload is beyond the backup buffer and its ciphertext passes for a payload. */
  predicate PassesEncrypted(aes: Aes, p: Params, key: Key, nonce: seq<byte>, pkt: seq<byte>)
    requires |nonce| <= IvSize && Ipv4At14(pkt)
  {
    var plain := pkt[14 + Ihl(pkt, 14)..];
    !p.Gcm() && |plain| > BackupSize && PortsPlausible(Stream(aes, p, key, nonce, plain), pkt[ProtoAt])
  }

  /**
   * With all keys alike, as initialisation leaves them, the tries repeat the first - except that
   * beyond the backup buffer the second one encrypts what the first had decrypted.
   */
  lemma EqualKeysOpen(aes: Aes, p: Params, ctx: Ctx, nonce: seq<byte>, pkt: seq<byte>)
    requires |nonce| <= IvSize && Ipv4At14(pkt) && pkt[ProtoAt] != FragMagicL3
    requires ctx.prev == ctx.current == ctx.next
    ensures Opens(aes, p, ctx, nonce, pkt) <==> Restorable(p, pkt) || PassesEncrypted(aes, p, ctx.current, nonce, pkt)
  {
    hide Stream;
    hide PortsPlausible;
    var plain := pkt[14 + Ihl(pkt, 14)..];
    StreamTwice(aes, p, ctx.current, nonce, plain);
    if !p.Gcm() {
      assert Seal(aes, p, ctx.current, nonce, plain) == Stream(aes, p, ctx.current, nonce, plain);
    }
  }

  /**
   * A restorable packet, once encrypted, decrypts to the original with a fresh header checksum, its
   * own total length and a fresh transport checksum - the original itself exactly when those were
   * already right. Any packet decrypts exactly when its protocol is not the marker and it opens;
   * under keys as initialisation leaves them, that is when it is restorable or passes encrypted.
   */
  lemma RoundTripL3(aes: Aes, p: Params, ctx: Ctx, counter: u32, salt: Salt, pkt: seq<byte>)
    requires p.Valid() && |pkt| + p.TunnelHdrSize() + p.TagLen() <= 0xFFFF
    ensures EncryptResultL3(aes, p, ctx, counter, salt, pkt).Rewritten? ==>
            var w := EncryptResultL3(aes, p, ctx, counter, salt, pkt).pkt;
            var at := 14 + Ihl(pkt, 14);
            var nonce := Nonce(counter, salt, p.nonceSize);
            var back := DecryptResultL3(aes, p, ctx, w);
            && |w| == |pkt| + p.TunnelHdrSize() + p.TagLen() && Ipv4At14(pkt)
            && (Restorable(p, pkt) ==>
                 && back == Rewritten(Restored(pkt[..at], pkt[ProtoAt], TotalLength(pkt), pkt[at..]))
                 && (back == Rewritten(pkt) <==>
                       HeaderCanonical(pkt[..at]) && SegmentCanonical(pkt[14..at], pkt[ProtoAt], pkt[at..])))
            && (back.Rewritten? <==> pkt[ProtoAt] != FragMagicL3 && Opens(aes, p, ctx, nonce, pkt))
            && (ctx.prev == ctx.current == ctx.next && pkt[ProtoAt] != FragMagicL3 ==>
                 (back.Rewritten? <==> Restorable(p, pkt) || PassesEncrypted(aes, p, ctx.current, nonce, pkt)))
  {
    hide WirePacketL3;
    hide PatchIpv4;
    hide DecryptResultL3;
    hide Restored;
    hide SegmentCanonical;
    hide HeaderCanonical;
    hide PortsPlausible;
    hide TotalLength;
    hide Opens;
    hide PassesEncrypted;
    if EncryptResultL3(aes, p, ctx, counter, salt, pkt).Rewritten? {
      var nonce := Nonce(counter, salt, p.nonceSize);
      WirePacketOutcomeL3(aes, p, ctx, nonce, pkt);
      if Restorable(p, pkt) {
        WirePacketOpensL3(aes, p, ctx, nonce, pkt);
        RestoredFixedPoint(pkt);
      }
      if ctx.prev == ctx.current == ctx.next && pkt[ProtoAt] != FragMagicL3 {
        EqualKeysOpen(aes, p, ctx, nonce, pkt);
      }
    }
  }

  lemma MarkedHead(head: seq<byte>, fake: byte, total: u16) returns (patched: seq<byte>)
    requires Ipv4At14(head) && |head| == 14 + Ihl(head, 14)
    ensures patched == PatchIpv4(head[ProtoAt := fake], 14, Ihl(head, 14), total)
    ensures Ipv4At14(patched) && |patched| == |head| && Ihl(patched, 14) == Ihl(head, 14) && patched[ProtoAt] == fake
    ensures TotalLength(patched) == total
  {
    var ihl := Ihl(head, 14);
    var marked := head[ProtoAt := fake];
    patched := PatchIpv4(marked, 14, ihl, total);
    PatchedHeaderVerifies(marked, 14, ihl, total);
    hide PatchIpv4;
    PatchOthers(marked, 14, ihl, total, 12);
    PatchOthers(marked, 14, ihl, total, 13);
    PatchOthers(marked, 14, ihl, total, 14);
    PatchOthers(marked, 14, ihl, total, ProtoAt);
    assert patched[14..14 + ihl][2] == patched[16] && patched[14..14 + ihl][3] == patched[17];
  }

  lemma RestoredFromMarked(head: seq<byte>, fake: byte, t1: u16, t2: u16, plain: seq<byte>)
    requires Ipv4At14(head) && |head| == 14 + Ihl(head, 14) && |plain| <= 0xFFFF
    requires Ihl(PatchIpv4(head[ProtoAt := fake], 14, Ihl(head, 14), t1), 14) == Ihl(head, 14)
    ensures Restored(PatchIpv4(head[ProtoAt := fake], 14, Ihl(head, 14), t1), head[ProtoAt], t2, plain)
         == Restored(head, head[ProtoAt], t2, plain)
  {
    hide PatchIpv4;
    hide Rechecked;
    hide Ihl;
    PatchAfterSet(head[ProtoAt := fake], 14, Ihl(head, 14), t1, t2, ProtoAt, head[ProtoAt]);
    assert head[ProtoAt := fake][ProtoAt := head[ProtoAt]] == head == head[ProtoAt := head[ProtoAt]];
  }

  /** Restoring a packet from its own parts changes nothing exactly when both fields hold their checksums. */
  lemma RestoredFixedPoint(pkt: seq<byte>)
    requires Ipv4At14(pkt) && |pkt| <= 0xFFFF
    ensures var at := 14 + Ihl(pkt, 14);
            Restored(pkt[..at], pkt[ProtoAt], TotalLength(pkt), pkt[at..]) == pkt <==>
              HeaderCanonical(pkt[..at]) && SegmentCanonical(pkt[14..at], pkt[ProtoAt], pkt[at..])
  {
    hide PatchIpv4;
    hide Rechecked;
    hide SegmentCanonical;
    hide IpChecksum;
    var at := 14 + Ihl(pkt, 14);
    var head, seg := pkt[..at], pkt[at..];
    PatchFixedPoint(head, 14, Ihl(pkt, 14), TotalLength(pkt));
    RecheckedFixedPoint(pkt[14..at], pkt[ProtoAt], seg);
    assert head[ProtoAt := pkt[ProtoAt]] == head;
    var h := PatchIpv4(head, 14, Ihl(pkt, 14), TotalLength(pkt));
    var r := h + Rechecked(h[14..], pkt[ProtoAt], seg);
    assert pkt == head + seg && head[14..] == pkt[14..at];
    assert r[..at] == h && r[at..] == Rechecked(h[14..], pkt[ProtoAt], seg);
  }

  // ---- in place ----

  /** A segment with its checksum word at skip zeroed, if it has one there. */
  function Without(seg: seq<byte>, skip: nat): (r: seq<byte>)
    ensures |r| == |seg|
  {
    if skip + 1 < |seg| then seg[skip := 0][skip + 1 := 0] else seg
  }

  /**
   * crypto_calc_tcp_checksum and crypto_calc_udp_checksum: the word loop over the len octets at
   * off. The TCP form passes over its checksum word at skip; the UDP form skips nothing.
   */
  method CalcSegmentChecksum(ip: seq<byte>, proto: byte, a: array<byte>, off: nat, len: nat, skip: nat) returns (c: u16)
    requires |ip| >= 20 && off + len <= a.Length && len <= 0xFFFF
    requires skip % 2 == 0 || skip >= len
    ensures c == SegmentChecksum(ip, proto, Without(a[off..off + len], skip), len)
  {
    hide WordSum;
    hide Fold;
    hide PseudoSum;
    hide Without;
    hide Clip;
    hide Be16;
    hide Complement;
    ghost var whole := a[off..off + len];
    ghost var seg := Without(whole, skip);
    PseudoBound(ip, proto, len);
    var sum: u32 := PseudoSum(ip, proto, len);
    var i := 0;
    WordsAtEnds(seg, 0);
    while i < len
      invariant 0 <= i <= len + 1 && i % 2 == 0
      invariant sum == PseudoSum(ip, proto, len) + WordSum(seg[..Clip(i, len)])
    {
      var word: u16 := if i == skip && i + 2 <= len then 0
                       else Be16(a[off + i], if i + 1 < len then a[off + i + 1] else 0);
      NextWord(ip, proto, whole, skip, i, word);
      sum := sum + word;
      i := i + 2;
    }
    WordsAtEnds(seg, i);
    c := FoldAndComplement(sum);
  }

  lemma WordsAtEnds(s: seq<byte>, i: nat)
    ensures WordSum(s[..Clip(0, |s|)]) == 0
    ensures i >= |s| ==> Clip(i, |s|) == |s|
  {
  }

  lemma WordOfWithout(s: seq<byte>, skip: nat, i: nat)
    requires i < |s| && i % 2 == 0 && (skip % 2 == 0 || skip >= |s|)
    ensures var z := Without(s, skip);
            Be16(z[i], if i + 1 < |z| then z[i + 1] else 0)
            == if i == skip && i + 2 <= |s| then 0 else Be16(s[i], if i + 1 < |s| then s[i + 1] else 0)
  {
  }

  /** Adding the next word keeps the sum of the words so far, in 32 bits. */
  lemma NextWord(ip: seq<byte>, proto: byte, s: seq<byte>, skip: nat, i: nat, word: u16)
    requires |ip| >= 20 && i < |s| <= 0xFFFF && i % 2 == 0 && (skip % 2 == 0 || skip >= |s|)
    requires word == if i == skip && i + 2 <= |s| then 0 else Be16(s[i], if i + 1 < |s| then s[i + 1] else 0)
    ensures var z := Without(s, skip);
            && WordSum(z[..Clip(i + 2, |s|)]) == WordSum(z[..Clip(i, |s|)]) + word
            && PseudoSum(ip, proto, |s|) + WordSum(z[..Clip(i + 2, |s|)]) < 0x1_0000_0000
  {
    hide WordSum;
    hide PseudoSum;
    hide Without;
    hide Be16;
    var z := Without(s, skip);
    WordOfWithout(s, skip, i);
    WordSumNext(z, i);
    WordSumBound(z[..Clip(i + 2, |s|)]);
    PseudoBound(ip, proto, |s|);
  }

  lemma PseudoBound(ip: seq<byte>, proto: byte, len: u16)
    requires |ip| >= 20
    ensures PseudoSum(ip, proto, len) <= 5 * 0xFFFF + 255
  {
  }

  lemma ZeroedAlready(seg: seq<byte>, proto: byte, len: nat, at: nat)
    requires |seg| <= 0xFFFF && Covered(seg, proto) == Some((len, at))
    ensures var zeroed: seq<byte> := seg[at := 0][at + 1 := 0];
            at % 2 == 0 && Without(zeroed[..len], if proto == 6 then at else len) == zeroed[..len]
  {
  }

  lemma RecheckedNothing(ip: seq<byte>, proto: byte, seg: seq<byte>)
    requires |ip| >= 20 && |seg| <= 0xFFFF && Covered(seg, proto) == None
    ensures Rechecked(ip, proto, seg) == seg
  {
  }

  lemma RecheckedCovered(ip: seq<byte>, proto: byte, seg: seq<byte>, len: nat, at: nat)
    requires |ip| >= 20 && |seg| <= 0xFFFF && Covered(seg, proto) == Some((len, at))
    ensures var zeroed: seq<byte> := seg[at := 0][at + 1 := 0];
            var c := SegmentChecksum(ip, proto, zeroed, len);
            Rechecked(ip, proto, seg) == zeroed[at := Hi(c)][at + 1 := Lo(c)]
  {
    hide SegmentChecksum;
  }

  /** The checksum rebuild at the end of crypto_layer3_decrypt; ip is the patched IPv4 header. */
  method RecheckInPlace(ip: seq<byte>, proto: byte, a: array<byte>, off: nat, n: nat)
    requires |ip| >= 20 && off <= n <= a.Length && n - off <= 0xFFFF
    modifies a
    ensures a[..n] == old(a[..n])[..off] + Rechecked(ip, proto, old(a[..n])[off..])
  {
    hide SegmentChecksum;
    hide Covered;
    hide Without;
    hide Rechecked;
    ghost var front, seg := a[..n][..off], a[..n][off..];
    assert a[off..n] == seg && a[..n] == front + seg;
    var covered := Covered(a[off..n], proto);
    if covered.None? {
      RecheckedNothing(ip, proto, seg);
    } else {
      var (len, at) := covered.value;
      ghost var zeroed := seg[at := 0][at + 1 := 0];
      PutWord(a, off, at, 0, n, front, seg);
      CoveredSlice(a[..], n, front, zeroed, len);
      ZeroedAlready(seg, proto, len, at);
      var c := CalcSegmentChecksum(ip, proto, a, off, len, if proto == 6 then at else len);
      SegmentChecksumOfCovered(ip, proto, zeroed, len);
      PutWord(a, off, at, c, n, front, zeroed);
      RecheckedCovered(ip, proto, seg, len, at);
    }
  }

  lemma SegmentChecksumOfCovered(ip: seq<byte>, proto: byte, seg: seq<byte>, len: nat)
    requires |ip| >= 20 && len <= |seg| <= 0xFFFF
    ensures SegmentChecksum(ip, proto, seg[..len], len) == SegmentChecksum(ip, proto, seg, len)
  {
    assert seg[..len][..len] == seg[..len];
  }

  /** Two octets of the segment behind front. */
  method PutWord(a: array<byte>, off: nat, at: nat, w: u16, n: nat, ghost front: seq<byte>, ghost seg: seq<byte>)
    requires n <= a.Length && |front| == off && a[..n] == front + seg && at + 1 < |seg|
    modifies a
    ensures a[..n] == front + seg[at := Hi(w)][at + 1 := Lo(w)]
    ensures a[off + at] == Hi(w) && a[off + at + 1] == Lo(w)
  {
    a[off + at] := Hi(w);
    a[off + at + 1] := Lo(w);
  }

  lemma CoveredSlice(b: seq<byte>, n: nat, front: seq<byte>, seg: seq<byte>, len: nat)
    requires n <= |b| && b[..n] == front + seg && len <= |seg|
    ensures b[|front|..|front| + len] == seg[..len]
  {
    SliceOfPrefix(b, n, |front|, |front| + len);
  }

  /** crypto_layer3_encrypt on a frame with room for the overhead. */
  method EncryptL3(aes: Aes, p: Params, ctx: Ctx, counter: u32, salt: Salt, packet: array<byte>, n: nat)
    returns (r: int)
    requires p.Valid() && n + p.TunnelHdrSize() + p.TagLen() <= packet.Length
    modifies packet
    ensures Reports(EncryptResultL3(aes, p, ctx, counter, salt, old(packet[..n])), r, n, old(packet[..]), packet[..])
  {
    hide Seal;
    hide PatchIpv4;
    hide TunnelHdrL3;
    ghost var b0 := packet[..];
    var pkt := packet[..n];
    if !ctx.initialized || n < 22 {
      return -1;
    }
    if n < 34 || EtherTypeAt(pkt, 12) != 0x0800 {
      return n;
    }
    if !Ipv4At14(pkt) {
      return -1;
    }
    var ihl := Ihl(pkt, 14);
    var at := 14 + ihl;
    if n >= at + p.TunnelHdrSize() && pkt[at + p.nonceSize + 1] == FragMagicL3 {
      return n;
    }
    var proto := pkt[ProtoAt];
    var nonce := Nonce(counter, salt, p.nonceSize);
    packet[ProtoAt] := p.fakeProtocol;
    assert packet[..][..at] == pkt[..at][ProtoAt := p.fakeProtocol];
    assert packet[..][at..n] == pkt[at..];
    r := SealAndShift(aes, p, ctx.current, nonce, TunnelHdrL3(p, nonce, proto), packet, n, at, 14, ihl,
                      (TotalLength(pkt) + p.TunnelHdrSize() + p.TagLen()) % 0x1_0000);
  }

  /** crypto_layer3_decrypt. */
  method DecryptL3(aes: Aes, p: Params, ctx: Ctx, packet: array<byte>, n: nat) returns (r: int)
    requires p.Valid() && n <= packet.Length && n <= 0xFFFF
    modifies packet
    ensures Reports(DecryptResultL3(aes, p, ctx, old(packet[..n])), r, n, old(packet[..]), packet[..])
  {
    hide OpenFor;
    hide Restored;
    var pkt := packet[..n];
    if !ctx.initialized || n < 22 {
      return -1;
    }
    if !Ipv4At14(pkt) {
      return n;
    }
    var ihl := Ihl(pkt, 14);
    var at := 14 + ihl;
    var bodyAt := at + p.TunnelHdrSize();
    if n < bodyAt || pkt[at + p.nonceSize + 1] == FragMagicL3 || pkt[ProtoAt] != p.fakeProtocol {
      return n;
    }
    var proto := pkt[at + p.nonceSize + 1];
    packet[ProtoAt] := proto;
    assert packet[..][..at] == pkt[..at][ProtoAt := proto];
    assert packet[..][bodyAt..n] == pkt[bodyAt..];
    r := OpenAndRestore(aes, p, ctx, pkt[at..at + p.nonceSize], packet, n, ihl, bodyAt, proto, pkt[..at],
                        (TotalLength(pkt) - p.TunnelHdrSize() - p.TagLen()) % 0x1_0000);
  }

  method OpenAndRestore(aes: Aes, p: Params, ctx: Ctx, nonce: seq<byte>, packet: array<byte>, n: nat,
                        ihl: nat, bodyAt: nat, proto: byte, ghost head: seq<byte>, total: u16) returns (r: int)
    requires |nonce| <= IvSize && 14 + ihl <= bodyAt <= n <= packet.Length && n <= 0xFFFF
    requires 20 <= ihl && |head| == 14 + ihl && Ihl(head, 14) == ihl && packet[..][..14 + ihl] == head[ProtoAt := proto]
    modifies packet
    ensures match OpenFor(aes, p, ctx, nonce, old(packet[..])[bodyAt..n], Some(proto))
            case None => r == -1
            case Some(plain) => r == |head| + |plain| <= n && packet[..r] == Restored(head, proto, total, plain)
  {
    hide OpenFor;
    hide OpenLeft;
    hide PatchIpv4;
    hide Splice;
    hide Rechecked;
    ghost var b0 := packet[..];
    var at := 14 + ihl;
    var len := OpenBody(aes, p, ctx, nonce, Some(proto), packet, bodyAt, n);
    if len < 0 {
      return -1;
    }
    ghost var plain := OpenFor(aes, p, ctx, nonce, b0[bodyAt..n], Some(proto)).value;
    SpliceSelf(b0, bodyAt, plain);
    Move(packet, at, bodyAt, len);
    ghost var b2 := packet[..];
    CloseGap(b0, at, bodyAt, plain);
    r := at + len;
    PatchIpv4InPlace(packet, 14, ihl, total);
    PatchedPrefix(b2, r, head[ProtoAt := proto], plain, 14, ihl, total);
    ghost var h := PatchIpv4(head[ProtoAt := proto], 14, ihl, total);
    assert packet[..r] == h + plain;
    CutThree(h, plain, []);
    assert packet[..r][..at] == h && packet[..r][at..] == plain;
    SliceOfPrefix(packet[..], r, 14, at);
    SliceOfPrefix(packet[..r], at, 14, at);
    assert packet[14..at] == h[14..at] == h[14..];
    RecheckInPlace(packet[14..at], proto, packet, at, r);
  }
}
