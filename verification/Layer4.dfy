/**
 * Layer-4 encryption (src/crypto/crypto_layer4.c): ports stay in clear, the rest of the IPv4
 * payload is sealed behind a tunnel header; fragments add a four-octet tag.
 */
module Layer4 {
  import opened Bytes
  import opened Checksum
  import opened PacketCrypto

  const PortLen := 4
  const FragTagLen := 4
  const TunnelMagic: byte := 0xA5
  const FragMagic: byte := 0x5A

  datatype Outcome = Failed | Unchanged | Rewritten(pkt: seq<byte>)

  function EtherTypeAt(pkt: seq<byte>, at: nat): u16
    requires at + 2 <= |pkt|
  {
    Be16(pkt[at], pkt[at + 1])
  }

  /** crypto_eth_ipv4_offset: where IPv4 starts, behind at most two VLAN tags. */
  function Ipv4Offset(pkt: seq<byte>): (r: Option<nat>)
    ensures r.Some? ==> 14 <= r.value <= 22 && r.value <= |pkt| && EtherTypeAt(pkt, r.value - 2) == 0x0800
  {
    if |pkt| < 14 then None
    else if EtherTypeAt(pkt, 12) == 0x0800 then Some(14)
    else if EtherTypeAt(pkt, 12) == 0x8100 then
      if |pkt| < 18 then None
      else if EtherTypeAt(pkt, 16) == 0x0800 then Some(18)
      else if EtherTypeAt(pkt, 16) == 0x8100 && |pkt| >= 22 && EtherTypeAt(pkt, 20) == 0x0800 then Some(22)
      else None
    else None
  }

  function Ihl(pkt: seq<byte>, l3: nat): (n: nat)
    requires l3 < |pkt|
    ensures n <= 60
  {
    pkt[l3] % 16 * 4
  }

  /** get_transport_hdr_size on the octets that remain from the transport header on. */
  function TransportHdrSize(seg: seq<byte>, proto: byte): (r: Option<nat>)
    ensures r.Some? ==> 8 <= r.value <= |seg|
    ensures r.Some? && proto == 6 ==> r.value >= 20
  {
    if proto == 6 then
      if |seg| < 20 || seg[12] / 16 * 4 < 20 || seg[12] / 16 * 4 > |seg| then None else Some(seg[12] / 16 * 4)
    else if proto == 17 then
      if |seg| < 8 then None else Some(8)
    else None
  }

  /** The size only depends on the header: it is the same for any cut that keeps the header. */
  lemma TransportHdrSizeOfPrefix(seg: seq<byte>, proto: byte, n: nat)
    requires TransportHdrSize(seg, proto).Some? && TransportHdrSize(seg, proto).value <= n <= |seg|
    ensures TransportHdrSize(seg[..n], proto) == TransportHdrSize(seg, proto)
  {
  }

  /** An IPv4 packet at l3 whose TCP or UDP header starts inside it, as parse_flow demands. */
  predicate TransportAt(pkt: seq<byte>, l3: nat) {
    && l3 + 20 <= |pkt|
    && (pkt[l3 + 9] == 6 || pkt[l3 + 9] == 17)
    && Ihl(pkt, l3) >= 20
    && l3 + Ihl(pkt, l3) <= |pkt|
  }

  /** The packet with the IPv4 length its size implies and a fresh header checksum. */
  function Canonical(pkt: seq<byte>, l3: nat): seq<byte>
    requires l3 + 20 <= |pkt| && Ihl(pkt, l3) >= 20 && l3 + Ihl(pkt, l3) <= |pkt|
  {
    PatchIpv4(pkt, l3, Ihl(pkt, l3), (|pkt| - l3) % 0x1_0000)
  }

  /** Its IPv4 total length and header checksum already are the canonical ones. */
  predicate IsCanonical(pkt: seq<byte>, l3: nat) {
    && l3 + 20 <= |pkt| && Ihl(pkt, l3) >= 20 && l3 + Ihl(pkt, l3) <= |pkt|
    && Be16(pkt[l3 + 2], pkt[l3 + 3]) == (|pkt| - l3) % 0x1_0000
    && Be16(pkt[l3 + 10], pkt[l3 + 11])
       == IpChecksum(Unsummed(pkt, l3, (|pkt| - l3) % 0x1_0000)[l3..l3 + Ihl(pkt, l3)])
  }

  lemma CanonicalFixedPoint(pkt: seq<byte>, l3: nat)
    requires l3 + 20 <= |pkt| && Ihl(pkt, l3) >= 20 && l3 + Ihl(pkt, l3) <= |pkt|
    ensures Canonical(pkt, l3) == pkt <==> IsCanonical(pkt, l3)
  {
    hide PatchIpv4;
    hide IpChecksum;
    PatchFixedPoint(pkt, l3, Ihl(pkt, l3), (|pkt| - l3) % 0x1_0000);
  }

  function TunnelHdr(p: Params, nonce: seq<byte>, magic: byte): (h: seq<byte>)
    ensures |h| == |nonce| + 2
  {
    nonce + [p.policyId, magic]
  }

  lemma TunnelHdrParts(p: Params, nonce: seq<byte>, magic: byte)
    ensures TunnelHdr(p, nonce, magic)[..|nonce|] == nonce && TunnelHdr(p, nonce, magic)[|nonce| + 1] == magic
  {
  }

  // ---- whole packets ----

  /** The wire form of pkt: headers and ports patched, tunnel header, sealed remainder. */
  function WirePacket(aes: Aes, p: Params, key: Key, nonce: seq<byte>, pkt: seq<byte>, l3: nat): (w: seq<byte>)
    requires |nonce| <= IvSize && TransportAt(pkt, l3)
    requires l3 + Ihl(pkt, l3) + PortLen <= |pkt|
    ensures |w| == |pkt| + |nonce| + 2 + p.TagLen()
  {
    var head := l3 + Ihl(pkt, l3) + PortLen;
    PatchIpv4(pkt[..head], l3, Ihl(pkt, l3), (|pkt| - l3 + |nonce| + 2 + p.TagLen()) % 0x1_0000)
      + TunnelHdr(p, nonce, TunnelMagic) + Seal(aes, p, key, nonce, pkt[head..])
  }

  /** crypto_layer4_encrypt. */
  function EncryptResult(aes: Aes, p: Params, ctx: Ctx, counter: u32, salt: Salt, pkt: seq<byte>): Outcome
    requires p.Valid()
    requires Ipv4Offset(pkt).Some? && L3Fits(pkt) ==> TransportInside(pkt)
  {
    if !ctx.initialized then Failed
    else if Ipv4Offset(pkt).None? then Unchanged
    else
      var l3 := Ipv4Offset(pkt).value;
      if |pkt| < l3 + 20 then Failed
      else if pkt[l3 + 9] != 6 && pkt[l3 + 9] != 17 then Unchanged
      else if Ihl(pkt, l3) < 20 then Failed
      else
        var to := l3 + Ihl(pkt, l3);
        if TransportHdrSize(pkt[to..], pkt[l3 + 9]).None? then Unchanged
        else Rewritten(WirePacket(aes, p, ctx.current, Nonce(counter, salt, p.nonceSize), pkt, l3))
  }

  predicate L3Fits(pkt: seq<byte>)
    requires Ipv4Offset(pkt).Some?
  {
    Ipv4Offset(pkt).value + 20 <= |pkt|
  }

  /** The IPv4 header length does not point past the packet. */
  predicate TransportInside(pkt: seq<byte>)
    requires Ipv4Offset(pkt).Some? && L3Fits(pkt)
  {
    Ipv4Offset(pkt).value + Ihl(pkt, Ipv4Offset(pkt).value) <= |pkt|
  }

  /** A tunnel packet taken apart: headers and ports, nonce, and the sealed body. */
  datatype Tunnel = Tunnel(front: seq<byte>, l3: nat, nonce: seq<byte>, body: seq<byte>)

  /** The headers the decrypt functions insist on before they look for a tunnel. */
  predicate HeadersOk(pkt: seq<byte>) {
    && Ipv4Offset(pkt).Some?
    && var l3 := Ipv4Offset(pkt).value;
       l3 + 20 <= |pkt| && (pkt[l3 + 9] == 6 || pkt[l3 + 9] == 17) && Ihl(pkt, l3) >= 20
  }

  /** Splits pkt behind its ports, when a tunnel header with this magic fits there. */
  function Split(p: Params, magic: byte, extra: nat, pkt: seq<byte>): (r: Option<Tunnel>)
    requires p.Valid() && HeadersOk(pkt)
    ensures r.Some? ==> var t := r.value;
      && Ipv4Offset(pkt) == Some(t.l3) && |t.front| == t.l3 + Ihl(pkt, t.l3) + PortLen
      && t.front <= pkt && |t.nonce| == p.nonceSize && |t.body| + |t.front| + p.TunnelHdrSize() + extra == |pkt|
  {
    var l3 := Ipv4Offset(pkt).value;
    var at := l3 + Ihl(pkt, l3) + PortLen;
    var bodyAt := at + p.TunnelHdrSize() + extra;
    if |pkt| < bodyAt || pkt[at + p.nonceSize + 1] != magic then None
    else Some(Tunnel(pkt[..at], l3, pkt[at..at + p.nonceSize], pkt[bodyAt..]))
  }

  /** Headers and ports, with the IPv4 length and checksum of what now follows them. */
  function Rejoin(front: seq<byte>, l3: nat, plain: seq<byte>): (r: seq<byte>)
    requires l3 + 20 <= |front| && Ihl(front, l3) >= 20 && |front| == l3 + Ihl(front, l3) + PortLen
    ensures |r| == |front| + |plain|
  {
    PatchIpv4(front, l3, Ihl(front, l3), (Ihl(front, l3) + PortLen + |plain|) % 0x1_0000) + plain
  }

  /** crypto_layer4_decrypt. */
  function DecryptResult(aes: Aes, p: Params, ctx: Ctx, pkt: seq<byte>): Outcome
    requires p.Valid()
  {
    if !ctx.initialized then Failed
    else if Ipv4Offset(pkt).None? then Unchanged
    else if |pkt| < Ipv4Offset(pkt).value + 20 then Failed
    else if pkt[Ipv4Offset(pkt).value + 9] != 6 && pkt[Ipv4Offset(pkt).value + 9] != 17 then Unchanged
    else if !HeadersOk(pkt) then Failed
    else
      match Split(p, TunnelMagic, 0, pkt)
      case None => Unchanged
      case Some(t) =>
        if t.nonce[0] >= 128 then Unchanged
        else
          match Open(aes, p, ctx, t.nonce, t.body)
          case None => Failed
          case Some(plain) => Rewritten(Rejoin(t.front, t.l3, plain))
  }

  /** What a failed decryption leaves of a packet: its body has been through the tries. */
  function Spoiled(aes: Aes, p: Params, ctx: Ctx, pkt: seq<byte>): (r: seq<byte>)
    requires p.Valid()
    ensures |r| == |pkt|
  {
    if !ctx.initialized || !HeadersOk(pkt) || Split(p, TunnelMagic, 0, pkt).None? then pkt
    else
      var t := Split(p, TunnelMagic, 0, pkt).value;
      pkt[..|pkt| - |t.body|] + OpenLeft(aes, p, ctx, t.nonce, t.body)
  }

  lemma DecryptOfSplit(aes: Aes, p: Params, ctx: Ctx, pkt: seq<byte>, t: Tunnel, plain: seq<byte>)
    requires p.Valid() && ctx.initialized && HeadersOk(pkt)
    requires Split(p, TunnelMagic, 0, pkt) == Some(t) && t.nonce[0] < 128
    requires Open(aes, p, ctx, t.nonce, t.body) == Some(plain)
    ensures DecryptResult(aes, p, ctx, pkt) == Rewritten(Rejoin(t.front, t.l3, plain))
  {
    hide Open;
    hide Split;
    hide Rejoin;
  }

  /** A front whose ports end it exactly. */
  predicate Front(front: seq<byte>, l3: nat) {
    Ipv4Offset(front) == Some(l3) && TransportAt(front, l3) && |front| == l3 + Ihl(front, l3) + PortLen
  }

  /** Patching keeps a front a front. */
  lemma PatchKeepsFront(front: seq<byte>, l3: nat, total: u16)
    requires Front(front, l3)
    ensures var h := PatchIpv4(front, l3, Ihl(front, l3), total);
            Front(h, l3) && Ihl(h, l3) == Ihl(front, l3)
  {
    hide PatchIpv4;
    var h := PatchIpv4(front, l3, Ihl(front, l3), total);
    forall i | 12 <= i < l3 || i == l3 || i == l3 + 9
      ensures h[i] == front[i]
    {
      PatchOthers(front, l3, Ihl(front, l3), total, i);
    }
  }

  /** Splitting undoes the tunnel layout; mid is the tunnel header and what extra follows it. */
  lemma SplitLayout(p: Params, magic: byte, front: seq<byte>, l3: nat, nonce: seq<byte>, mid: seq<byte>,
                    body: seq<byte>)
    requires p.Valid() && |nonce| == p.nonceSize && Front(front, l3)
    requires |mid| >= p.TunnelHdrSize() && mid[..p.nonceSize] == nonce && mid[p.nonceSize + 1] == magic
    ensures var w := front + mid + body;
            HeadersOk(w) && Split(p, magic, |mid| - p.TunnelHdrSize(), w) == Some(Tunnel(front, l3, nonce, body))
  {
    var w := front + mid + body;
    CutThree(front, mid, body);
    assert w[|front|..|front| + p.nonceSize] == mid[..p.nonceSize];
    assert Ipv4Offset(w) == Some(l3) && Ihl(w, l3) == Ihl(front, l3);
  }

  lemma RejoinPatched(front: seq<byte>, l3: nat, total: u16, plain: seq<byte>)
    requires Front(front, l3)
    ensures Front(PatchIpv4(front, l3, Ihl(front, l3), total), l3)
    ensures Rejoin(PatchIpv4(front, l3, Ihl(front, l3), total), l3, plain) == Rejoin(front, l3, plain)
  {
    hide PatchIpv4;
    hide Ipv4Offset;
    PatchKeepsFront(front, l3, total);
    PatchTwice(front, l3, Ihl(front, l3), total, (Ihl(front, l3) + PortLen + |plain|) % 0x1_0000);
  }

  /** Rejoining a packet's own front and remainder is its canonical form. */
  lemma RejoinOwnHalves(pkt: seq<byte>, l3: nat, head: nat)
    requires Ipv4Offset(pkt) == Some(l3) && TransportAt(pkt, l3) && head == l3 + Ihl(pkt, l3) + PortLen <= |pkt|
    ensures Front(pkt[..head], l3)
    ensures Rejoin(pkt[..head], l3, pkt[head..]) == Canonical(pkt, l3)
  {
    hide PatchIpv4;
    assert pkt == pkt[..head] + pkt[head..];
    PatchPrefix(pkt[..head], pkt[head..], l3, Ihl(pkt, l3), (|pkt| - l3) % 0x1_0000);
  }

  /** A packet in wire form decrypts to its canonical self. */
  lemma WirePacketOpens(aes: Aes, p: Params, ctx: Ctx, nonce: seq<byte>, pkt: seq<byte>, l3: nat)
    requires p.Valid() && ctx.initialized && |nonce| == p.nonceSize && nonce[0] < 128
    requires Ipv4Offset(pkt) == Some(l3) && TransportAt(pkt, l3) && l3 + Ihl(pkt, l3) + PortLen <= |pkt|
    ensures DecryptResult(aes, p, ctx, WirePacket(aes, p, ctx.current, nonce, pkt, l3)) == Rewritten(Canonical(pkt, l3))
  {
    hide Seal;
    hide Open;
    hide PatchIpv4;
    hide Ipv4Offset;
    hide DecryptResult;
    hide Split;
    hide Rejoin;
    hide HeadersOk;
    var head := l3 + Ihl(pkt, l3) + PortLen;
    var hdr := TunnelHdr(p, nonce, TunnelMagic);
    TunnelHdrParts(p, nonce, TunnelMagic);
    hide TunnelHdr;
    var total := (|pkt| - l3 + |nonce| + 2 + p.TagLen()) % 0x1_0000;
    RejoinOwnHalves(pkt, l3, head);
    RejoinPatched(pkt[..head], l3, total, pkt[head..]);
    var front := PatchIpv4(pkt[..head], l3, Ihl(pkt, l3), total);
    var body := Seal(aes, p, ctx.current, nonce, pkt[head..]);
    SplitLayout(p, TunnelMagic, front, l3, nonce, hdr, body);
    OpenSealed(aes, p, ctx, nonce, pkt[head..]);
    DecryptOfSplit(aes, p, ctx, front + hdr + body, Tunnel(front, l3, nonce, body), pkt[head..]);
  }

  /**
   * Decrypting an encrypted packet gives the original back up to its canonical IPv4 length and
   * checksum - and hence exactly when those fields were canonical to begin with.
   */
  lemma RoundTrip(aes: Aes, p: Params, ctx: Ctx, counter: u32, salt: Salt, pkt: seq<byte>)
    requires p.Valid()
    requires Ipv4Offset(pkt).Some? && L3Fits(pkt) ==> TransportInside(pkt)
    requires EncryptResult(aes, p, ctx, counter, salt, pkt).Rewritten?
    ensures var l3 := Ipv4Offset(pkt).value;
            var w := EncryptResult(aes, p, ctx, counter, salt, pkt).pkt;
            && |w| == |pkt| + p.TunnelHdrSize() + p.TagLen()
            && DecryptResult(aes, p, ctx, w) == Rewritten(Canonical(pkt, l3))
            && (DecryptResult(aes, p, ctx, w) == Rewritten(pkt) <==> IsCanonical(pkt, l3))
  {
    hide WirePacket;
    hide DecryptResult;
    hide Canonical;
    hide IsCanonical;
    var l3 := Ipv4Offset(pkt).value;
    WirePacketOpens(aes, p, ctx, Nonce(counter, salt, p.nonceSize), pkt, l3);
    CanonicalFixedPoint(pkt, l3);
  }

  // ---- fragments ----

  function FragTag(id: u16, index: byte): seq<byte> {
    [Hi(id), Lo(id), index, 0]
  }

  /** crypto_layer4_encrypt_fragment_single on front = Ethernet header, IPv4 header and ports. */
  function WireFragment(aes: Aes, p: Params, key: Key, nonce: seq<byte>, front: seq<byte>, ihl: nat,
                        plain: seq<byte>, id: u16, index: byte): (w: seq<byte>)
    requires |nonce| <= IvSize && 20 <= ihl && |front| == 14 + ihl + PortLen
    ensures |w| == |front| + |nonce| + 2 + FragTagLen + |plain| + p.TagLen()
  {
    PatchIpv4(front, 14, ihl, (ihl + PortLen + |nonce| + 2 + FragTagLen + p.TagLen() + |plain|) % 0x1_0000)
      + (TunnelHdr(p, nonce, FragMagic) + FragTag(id, index)) + Seal(aes, p, key, nonce, plain)
  }

  datatype Fragment = Fragment(pkt: seq<byte>, id: u16, index: byte)

  /** crypto_layer4_decrypt_fragment. */
  function DecryptFragment(aes: Aes, p: Params, ctx: Ctx, pkt: seq<byte>): (r: Option<Fragment>)
    requires p.Valid()
    ensures r.Some? ==> Ipv4Offset(pkt).Some? && TransportAt(r.value.pkt, Ipv4Offset(pkt).value)
  {
    if !ctx.initialized || !HeadersOk(pkt) then None
    else
      match Split(p, FragMagic, FragTagLen, pkt)
      case None => None
      case Some(t) =>
        var tagAt := |t.front| + p.TunnelHdrSize();
        match Open(aes, p, ctx, t.nonce, t.body)
        case None => None
        case Some(plain) => Some(Fragment(Rejoin(t.front, t.l3, plain), Be16(pkt[tagAt], pkt[tagAt + 1]),
                                          pkt[tagAt + 2]))
  }

  /** A wire fragment decrypts to its plaintext behind the patched headers, with its own tag. */
  lemma FragmentRoundTrip(aes: Aes, p: Params, ctx: Ctx, nonce: seq<byte>, front: seq<byte>,
                          plain: seq<byte>, id: u16, index: byte)
    requires p.Valid() && ctx.initialized && |nonce| == p.nonceSize && Front(front, 14)
    ensures DecryptFragment(aes, p, ctx,
                            WireFragment(aes, p, ctx.current, nonce, front, Ihl(front, 14), plain, id, index))
            == Some(Fragment(Rejoin(front, 14, plain), id, index))
  {
    hide Seal;
    hide Open;
    hide PatchIpv4;
    hide Ipv4Offset;
    var ihl := Ihl(front, 14);
    var total := (ihl + PortLen + |nonce| + 2 + FragTagLen + p.TagLen() + |plain|) % 0x1_0000;
    RejoinPatched(front, 14, total, plain);
    var head := PatchIpv4(front, 14, ihl, total);
    var body := Seal(aes, p, ctx.current, nonce, plain);
    var mid := TunnelHdr(p, nonce, FragMagic) + FragTag(id, index);
    assert mid[..p.nonceSize] == nonce;
    SplitLayout(p, FragMagic, head, 14, nonce, mid, body);
    var w := WireFragment(aes, p, ctx.current, nonce, front, ihl, plain, id, index);
    assert w == head + mid + body;
    TagInMiddle(p, head, nonce, id, index, body);
    OpenSealed(aes, p, ctx, nonce, plain);
    FragmentOfSplit(aes, p, ctx, w, Tunnel(head, 14, nonce, body), plain, id, index);
  }

  lemma TagInMiddle(p: Params, head: seq<byte>, nonce: seq<byte>, id: u16, index: byte, body: seq<byte>)
    requires |nonce| == p.nonceSize
    ensures var w := head + (TunnelHdr(p, nonce, FragMagic) + FragTag(id, index)) + body;
            var at := |head| + p.TunnelHdrSize();
            |w| >= at + 4 && w[at] == Hi(id) && w[at + 1] == Lo(id) && w[at + 2] == index
  {
  }

  lemma FragmentOfSplit(aes: Aes, p: Params, ctx: Ctx, pkt: seq<byte>, t: Tunnel, plain: seq<byte>, id: u16,
                        index: byte)
    requires p.Valid() && ctx.initialized && HeadersOk(pkt)
    requires Split(p, FragMagic, FragTagLen, pkt) == Some(t)
    requires Open(aes, p, ctx, t.nonce, t.body) == Some(plain)
    requires var at := |t.front| + p.TunnelHdrSize();
             pkt[at] == Hi(id) && pkt[at + 1] == Lo(id) && pkt[at + 2] == index
    ensures DecryptFragment(aes, p, ctx, pkt) == Some(Fragment(Rejoin(t.front, t.l3, plain), id, index))
  {
    hide Open;
    hide Split;
    hide Rejoin;
    hide HeadersOk;
    hide Be16;
    hide Hi;
    hide Lo;
    Be16Unique(Hi(id), Lo(id), id);
  }

  // ---- in place ----

  /** Whether the buffer and return value are what an outcome says. */
  ghost predicate Reports(o: Outcome, r: int, n: nat, before: seq<byte>, after: seq<byte>)
    requires n <= |before| == |after|
  {
    match o
    case Failed => r == -1
    case Unchanged => r == n && after == before
    case Rewritten(w) => r == |w| <= |after| && after[..r] == w
  }

  /** crypto_layer4_encrypt on a frame with room for the overhead. */
  method Encrypt(aes: Aes, p: Params, ctx: Ctx, counter: u32, salt: Salt, packet: array<byte>, n: nat) returns (r: int)
    requires p.Valid() && n + p.TunnelHdrSize() + p.TagLen() <= packet.Length
    requires Ipv4Offset(packet[..n]).Some? && L3Fits(packet[..n]) ==> TransportInside(packet[..n])
    modifies packet
    ensures Reports(EncryptResult(aes, p, ctx, counter, salt, old(packet[..n])), r, n, old(packet[..]), packet[..])
  {
    hide Seal;
    hide PatchIpv4;
    hide Ipv4Offset;
    hide TransportHdrSize;
    ghost var b0 := packet[..];
    ghost var pkt := packet[..n];
    assert b0[..n] == pkt;
    if !ctx.initialized {
      return -1;
    }
    var off := Ipv4Offset(packet[..n]);
    if off.None? {
      return n;
    }
    var l3 := off.value;
    if n < l3 + 20 {
      return -1;
    }
    var proto := packet[l3 + 9];
    if proto != 6 && proto != 17 {
      return n;
    }
    var ihl := Ihl(packet[..n], l3);
    if ihl < 20 {
      return -1;
    }
    var transportOff := l3 + ihl;
    assert packet[transportOff..n] == pkt[transportOff..];
    if TransportHdrSize(packet[transportOff..n], proto).None? {
      return n;
    }
    var plainOff := transportOff + PortLen;
    var plainLen := n - plainOff;
    var nonce := Nonce(counter, salt, p.nonceSize);
    assert b0[plainOff..n] == pkt[plainOff..] && b0[..plainOff] == pkt[..plainOff];
    var total := (ihl + PortLen + p.TunnelHdrSize() + p.TagLen() + plainLen) % 0x1_0000;
    r := SealAndShift(aes, p, ctx.current, nonce, TunnelHdr(p, nonce, TunnelMagic), packet, n, plainOff, l3, ihl,
                      total);
  }

  /** Seal the octets from at on, move them up, write hdr into the gap and patch the IPv4 header. */
  method SealAndShift(aes: Aes, p: Params, key: Key, nonce: seq<byte>, hdr: seq<byte>, packet: array<byte>,
                      n: nat, at: nat, l3: nat, ihl: nat, total: u16) returns (r: nat)
    requires |nonce| <= IvSize && 20 <= ihl <= 60 && l3 + ihl <= at <= n
    requires n + |hdr| + p.TagLen() <= packet.Length
    modifies packet
    ensures r == n + |hdr| + p.TagLen()
    ensures packet[..r] == PatchIpv4(old(packet[..])[..at], l3, ihl, total) + hdr
                           + Seal(aes, p, key, nonce, old(packet[..])[at..n])
  {
    hide Stream;
    hide PatchIpv4;
    hide Splice;
    ghost var b0 := packet[..];
    ghost var c := Stream(aes, p, key, nonce, b0[at..n]);
    var tag := SealInPlace(aes, p, key, nonce, packet, at, n - at);
    assert at + (n - at) == n;
    SpliceSelf(b0, at, c);
    Move(packet, at + |hdr|, at, n - at);
    Copy(packet, n + |hdr|, tag);
    Copy(packet, at, hdr);
    r := n + |hdr| + p.TagLen();
    ShiftLayout(b0, at, c, hdr, tag);
    ghost var b4 := packet[..];
    ghost var rest := hdr + (c + tag);
    assert b4[..r] == b0[..at] + rest;
    PatchIpv4InPlace(packet, l3, ihl, total);
    PatchedPrefix(b4, r, b0[..at], rest, l3, ihl, total);
  }

  /** crypto_layer4_decrypt. */
  method Decrypt(aes: Aes, p: Params, ctx: Ctx, packet: array<byte>, n: nat) returns (r: int)
    requires p.Valid() && n <= packet.Length
    modifies packet
    ensures Reports(DecryptResult(aes, p, ctx, old(packet[..n])), r, n, old(packet[..]), packet[..])
    ensures r == -1 ==> packet[..n] == Spoiled(aes, p, ctx, old(packet[..n]))
  {
    hide Open;
    hide OpenLeft;
    hide PatchIpv4;
    ghost var b0 := packet[..];
    var pkt := packet[..n];
    assert b0[..n] == pkt;
    if !ctx.initialized {
      return -1;
    }
    var off := Ipv4Offset(pkt);
    if off.None? {
      return n;
    }
    var l3 := off.value;
    if n < l3 + 20 {
      return -1;
    }
    if pkt[l3 + 9] != 6 && pkt[l3 + 9] != 17 {
      return n;
    }
    if !HeadersOk(pkt) {
      return -1;
    }
    var split := Split(p, TunnelMagic, 0, pkt);
    if split.None? || split.value.nonce[0] >= 128 {
      return n;
    }
    var t := split.value;
    r := DecryptTunnel(aes, p, ctx, packet, n, t, |t.front| + p.TunnelHdrSize());
  }

  /** Decrypts a packet already split: the common end of the two decrypt functions. */
  method DecryptTunnel(aes: Aes, p: Params, ctx: Ctx, packet: array<byte>, n: nat, t: Tunnel, bodyAt: nat)
    returns (r: int)
    requires p.Valid() && n <= packet.Length && |t.nonce| <= IvSize
    requires t.l3 + 20 <= |t.front| <= bodyAt <= n && Ihl(t.front, t.l3) >= 20
    requires |t.front| == t.l3 + Ihl(t.front, t.l3) + PortLen
    requires t.front <= packet[..n] && t.body == packet[..n][bodyAt..]
    modifies packet
    ensures match Open(aes, p, ctx, t.nonce, t.body)
            case None =>
              r == -1 && packet[..n] == old(packet[..n])[..bodyAt] + OpenLeft(aes, p, ctx, t.nonce, t.body)
            case Some(plain) =>
              && r == |t.front| + |plain| <= n
              && packet[..r] == Rejoin(t.front, t.l3, plain)
  {
    hide Open;
    hide OpenLeft;
    hide PatchIpv4;
    ghost var b0 := packet[..];
    SliceOfPrefix(b0, n, bodyAt, n);
    SliceOfPrefix(b0, n, 0, |t.front|);
    assert packet[..n] == b0[..n];
    assert t.front == packet[..n][..|t.front|] == b0[..|t.front|];
    r := OpenAndRejoin(aes, p, ctx, t.nonce, packet, n, t.l3, Ihl(t.front, t.l3), |t.front|, bodyAt);
  }

  /** Open the body at bodyAt, move the plaintext down to at and patch the IPv4 header at l3. */
  method OpenAndRejoin(aes: Aes, p: Params, ctx: Ctx, nonce: seq<byte>, packet: array<byte>, n: nat,
                       l3: nat, ihl: nat, at: nat, bodyAt: nat) returns (r: int)
    requires |nonce| <= IvSize && 20 <= ihl <= 60 && l3 + ihl <= at <= bodyAt <= n <= packet.Length
    modifies packet
    ensures match Open(aes, p, ctx, nonce, old(packet[..])[bodyAt..n])
            case None =>
              && r == -1
              && packet[..] == Splice(old(packet[..]), bodyAt, OpenLeft(aes, p, ctx, nonce, old(packet[..])[bodyAt..n]))
            case Some(plain) =>
              && r == at + |plain| <= n
              && packet[..r] == PatchIpv4(old(packet[..])[..at], l3, ihl, (at - l3 + |plain|) % 0x1_0000) + plain
  {
    hide OpenFor;
    hide OpenLeft;
    hide PatchIpv4;
    hide Splice;
    ghost var b0 := packet[..];
    var len := OpenBody(aes, p, ctx, nonce, None, packet, bodyAt, n);
    if len < 0 {
      return -1;
    }
    ghost var plain := Open(aes, p, ctx, nonce, b0[bodyAt..n]).value;
    SpliceSelf(b0, bodyAt, plain);
    Move(packet, at, bodyAt, len);
    ghost var b2 := packet[..];
    CloseGap(b0, at, bodyAt, plain);
    r := at + len;
    var total := (at - l3 + len) % 0x1_0000;
    PatchIpv4InPlace(packet, l3, ihl, total);
    PatchedPrefix(b2, r, b0[..at], plain, l3, ihl, total);
  }

  /** crypto_layer4_decrypt_fragment. */
  method DecryptFragmentInPlace(aes: Aes, p: Params, ctx: Ctx, packet: array<byte>, n: nat)
    returns (r: int, id: u16, index: byte)
    requires p.Valid() && n <= packet.Length
    modifies packet
    ensures match DecryptFragment(aes, p, ctx, old(packet[..n]))
            case None => r == -1
            case Some(f) => r == |f.pkt| <= n && packet[..r] == f.pkt && id == f.id && index == f.index
  {
    hide Open;
    hide Ipv4Offset;
    hide Rejoin;
    var pkt := packet[..n];
    r, id, index := -1, 0, 0;
    if !ctx.initialized || !HeadersOk(pkt) {
      return;
    }
    var split := Split(p, FragMagic, FragTagLen, pkt);
    if split.None? {
      return;
    }
    var t := split.value;
    var tagAt := |t.front| + p.TunnelHdrSize();
    id, index := Be16(pkt[tagAt], pkt[tagAt + 1]), pkt[tagAt + 2];
    r := DecryptTunnel(aes, p, ctx, packet, n, t, tagAt + FragTagLen);
  }

  /** Octets of a wire fragment: headers and ports, tunnel header, tag, sealed plaintext. */
  function WireFragmentLen(p: Params, ihl: nat, plainLen: nat): nat
    requires p.Valid()
  {
    14 + ihl + PortLen + p.TunnelHdrSize() + FragTagLen + p.TagLen() + plainLen
  }

  /** crypto_layer4_encrypt_fragment_single; front is Ethernet header, IPv4 header and ports. */
  method EncryptFragment(aes: Aes, p: Params, ctx: Ctx, counter: u32, salt: Salt, front: seq<byte>, ihl: nat,
                         plain: seq<byte>, id: u16, index: byte, out: array<byte>, outMax: nat) returns (r: int)
    requires p.Valid() && 20 <= ihl <= 60 && |front| == 14 + ihl + PortLen && outMax <= out.Length
    modifies out
    ensures r == -1 <==> !ctx.initialized || plain == [] || WireFragmentLen(p, ihl, |plain|) > outMax
    ensures r == -1 || 0 <= r <= outMax
    ensures var nonce := Nonce(counter, salt, p.nonceSize);
            r == -1 || out[..r] == WireFragment(aes, p, ctx.current, nonce, front, ihl, plain, id, index)
  {
    hide PatchIpv4;
    hide Seal;
    hide Stream;
    hide Splice;
    hide TunnelHdr;
    if !ctx.initialized || plain == [] {
      return -1;
    }
    var overhead := p.TunnelHdrSize() + FragTagLen + p.TagLen();
    if |front| + overhead + |plain| > outMax {
      return -1;
    }
    var nonce := Nonce(counter, salt, p.nonceSize);
    ghost var b0 := out[..];
    Copy(out, 0, front);
    Copy(out, |front|, plain);
    PlaceTwo(b0, front, plain);
    var hdr := TunnelHdr(p, nonce, FragMagic) + FragTag(id, index);
    var total := (ihl + PortLen + overhead + |plain|) % 0x1_0000;
    r := SealAndShift(aes, p, ctx.current, nonce, hdr, out, |front| + |plain|, |front|, 14, ihl, total);
  }

  lemma PlaceTwo(b: seq<byte>, x: seq<byte>, y: seq<byte>)
    requires |x| + |y| <= |b|
    ensures var r := Splice(Splice(b, 0, x), |x|, y);
            r[..|x|] == x && r[|x|..|x| + |y|] == y
  {
  }
}
