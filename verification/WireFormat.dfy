/**
 * The wire formats octet by octet: what each encoder puts on the wire, and when, in terms of the
 * fields of packet and policy (src/crypto/crypto_layer2.c, crypto_layer3.c, crypto_layer4.c and
 * packet_crypto.c).
 */
module WireFormat {
  import opened Bytes
  import opened Checksum
  import opened Layer2
  import opened Layer3
  import opened Layer3Packet
  import opened Layer4
  import opened PacketCrypto

  // ---- payloads ----

  /** Octet i of the keystream: AES-CTR counts from the nonce padded with zeros, AES-GCM takes it as it is. */
  function Mask(aes: Aes, p: Params, key: Key, nonce: seq<byte>, i: nat): byte
    requires |nonce| <= 16
  {
    if p.mode == 1 then aes.gcm(p.aesBits, key, nonce, i)
    else aes.ctr(p.aesBits, key, nonce + seq(16 - |nonce|, _ => 0), i)
  }

  /** body is plain under the keystream, octet by octet, and in GCM mode the tag of that behind it. */
  predicate Carries(aes: Aes, p: Params, key: Key, nonce: seq<byte>, plain: seq<byte>, body: seq<byte>)
    requires |nonce| <= 16
  {
    && |body| == |plain| + (if p.mode == 1 then 16 else 0)
    && (forall i :: 0 <= i < |plain| ==> body[i] == Xor(plain[i], Mask(aes, p, key, nonce, i)))
    && (p.mode == 1 ==> body[|plain|..] == aes.tag(p.aesBits, key, nonce, body[..|plain|]))
  }

  /** Sealing is the only way to get such a body. */
  lemma SealCarriesExactly(aes: Aes, p: Params, key: Key, nonce: seq<byte>, plain: seq<byte>, body: seq<byte>)
    requires |nonce| <= 16
    ensures body == Seal(aes, p, key, nonce, plain) <==> Carries(aes, p, key, nonce, plain, body)
  {
    hide Xor;
    var c := Stream(aes, p, key, nonce, plain);
    var sealed := Seal(aes, p, key, nonce, plain);
    assert sealed[..|plain|] == c;
    if Carries(aes, p, key, nonce, plain, body) {
      assert body[..|plain|] == c;
      assert body == body[..|plain|] + body[|plain|..];
    }
  }

  // ---- nonces ----

  /** 31 bits of counter in big-endian order, then the salt. */
  predicate IsNonce(n: seq<byte>, counter: u32, salt: Salt)
    requires 1 <= |n| <= 16
  {
    && n[0] == counter / 0x100_0000 % 128
    && (|n| > 1 ==> n[1] == counter / 0x1_0000 % 256)
    && (|n| > 2 ==> n[2] == counter / 0x100 % 256)
    && (|n| > 3 ==> n[3] == counter % 256)
    && forall i :: 4 <= i < |n| ==> n[i] == salt[i - 4]
  }

  lemma NonceExactly(n: seq<byte>, counter: u32, salt: Salt)
    requires 1 <= |n| <= 16
    ensures n == Nonce(counter, salt, |n|) <==> IsNonce(n, counter, salt)
  {
    var m := Nonce(counter, salt, |n|);
    assert IsNonce(m, counter, salt);
    if IsNonce(n, counter, salt) {
      forall i | 0 <= i < |n|
        ensures n[i] == m[i]
      {
      }
    }
  }

  // ---- frames with an IPv4 header ----

  /**
   * w is before with a stamped header, then the nonce, then mid in clear, then plain under its
   * keystream.
   */
  predicate Wired(aes: Aes, p: Params, key: Key, counter: u32, salt: Salt, before: seq<byte>, l3: nat, ihl: nat,
                  total: u16, mid: seq<byte>, plain: seq<byte>, w: seq<byte>)
    requires p.Valid() && 20 <= ihl && l3 + ihl <= |before|
  {
    var at, bodyAt := |before|, |before| + p.nonceSize + |mid|;
    && |w| >= bodyAt
    && Stamped(before, w[..at], l3, ihl, total)
    && IsNonce(w[at..at + p.nonceSize], counter, salt)
    && w[at + p.nonceSize..bodyAt] == mid
    && Carries(aes, p, key, w[at..at + p.nonceSize], plain, w[bodyAt..])
  }

  lemma WiredParts(aes: Aes, p: Params, key: Key, counter: u32, salt: Salt, before: seq<byte>, l3: nat, ihl: nat,
                   total: u16, mid: seq<byte>, plain: seq<byte>)
    requires p.Valid() && 20 <= ihl && l3 + ihl <= |before| && before[l3] > 0
    ensures var nonce := Nonce(counter, salt, p.nonceSize);
            Wired(aes, p, key, counter, salt, before, l3, ihl, total, mid, plain,
                  PatchIpv4(before, l3, ihl, total) + (nonce + mid) + Seal(aes, p, key, nonce, plain))
  {
    hide PatchIpv4;
    hide Seal;
    hide Nonce;
    hide Stamped;
    hide Carries;
    hide IsNonce;
    var nonce := Nonce(counter, salt, p.nonceSize);
    var head, body := PatchIpv4(before, l3, ihl, total), Seal(aes, p, key, nonce, plain);
    var w := head + (nonce + mid) + body;
    CutThree(head, nonce + mid, body);
    assert w[|before|..|before| + p.nonceSize] == nonce;
    assert w[|before| + p.nonceSize..|before| + p.nonceSize + |mid|] == mid;
    PatchStampsExactly(before, head, l3, ihl, total);
    NonceExactly(nonce, counter, salt);
    SealCarriesExactly(aes, p, key, nonce, plain, body);
  }

  // ---- layer 4 ----

  /** Where IPv4 starts, in octets: 08 00 behind the addresses or behind one or two tags 81 00. */
  lemma Ipv4OffsetExactly(pkt: seq<byte>)
    ensures Ipv4Offset(pkt) == Some(14) <==> |pkt| >= 14 && pkt[12] == 0x08 && pkt[13] == 0
    ensures Ipv4Offset(pkt) == Some(18) <==>
              |pkt| >= 18 && pkt[12] == 0x81 && pkt[13] == 0 && pkt[16] == 0x08 && pkt[17] == 0
    ensures Ipv4Offset(pkt) == Some(22) <==>
              && |pkt| >= 22 && pkt[12] == 0x81 && pkt[13] == 0 && pkt[16] == 0x81 && pkt[17] == 0
              && pkt[20] == 0x08 && pkt[21] == 0
    ensures Ipv4Offset(pkt) in {None, Some(14), Some(18), Some(22)}
  {
  }

  /** A transport header that lies inside the segment. */
  lemma TransportHdrSizeExactly(seg: seq<byte>, proto: byte)
    ensures TransportHdrSize(seg, proto).Some? <==>
              || (proto == 6 && |seg| >= 20 && 5 <= seg[12] / 16 && 4 * (seg[12] / 16) as int <= |seg|)
              || (proto == 17 && |seg| >= 8)
    ensures TransportHdrSize(seg, proto).Some? ==>
              TransportHdrSize(seg, proto).value == if proto == 6 then 4 * (seg[12] / 16) as int else 8
  {
  }

  /** The packets that layer 4 encrypts: TCP or UDP over IPv4 at l3 with its transport header inside. */
  predicate TakenL4(pkt: seq<byte>, l3: nat) {
    && Ipv4Offset(pkt) == Some(l3) && l3 + 20 <= |pkt| && pkt[l3] % 16 >= 5 && l3 + 4 * (pkt[l3] % 16) as int <= |pkt|
    && TransportHdrSize(pkt[l3 + 4 * (pkt[l3] % 16) as int..], pkt[l3 + 9]).Some?
  }

  /**
   * Layer 4 sends a packet exactly when it has a context and takes it: with the total length of what
   * is on the wire, nonce, policy id and 0xA5 behind the ports, and everything after them sealed.
   * Without a context or with a broken IPv4 header it fails; all else passes as it is.
   */
  lemma EncryptFormatL4(aes: Aes, p: Params, ctx: Ctx, counter: u32, salt: Salt, pkt: seq<byte>)
    requires p.Valid()
    requires Ipv4Offset(pkt).Some? && L3Fits(pkt) ==> TransportInside(pkt)
    ensures var o := EncryptResult(aes, p, ctx, counter, salt, pkt);
            && (o.Rewritten? <==> ctx.initialized && exists l3 :: TakenL4(pkt, l3))
            && (o.Failed? <==>
                 || !ctx.initialized
                 || (Ipv4Offset(pkt).Some?
                     && var l3 := Ipv4Offset(pkt).value;
                        || |pkt| < l3 + 20
                        || ((pkt[l3 + 9] == 6 || pkt[l3 + 9] == 17) && pkt[l3] % 16 < 5)))
            && (o.Rewritten? ==>
                 var l3 := Ipv4Offset(pkt).value;
                 var ihl := 4 * (pkt[l3] % 16) as int;
                 var at := l3 + ihl + 4;
                 && at <= |pkt|
                 && |o.pkt| == |pkt| + p.nonceSize + 2 + (if p.mode == 1 then 16 else 0)
                 && Wired(aes, p, ctx.current, counter, salt, pkt[..at], l3, ihl, (|o.pkt| - l3) % 0x1_0000,
                          [p.policyId, 0xA5], pkt[at..], o.pkt))
  {
    hide Nonce;
    hide WirePacket;
    hide Ipv4Offset;
    hide TransportHdrSize;
    hide Wired;
    var o := EncryptResult(aes, p, ctx, counter, salt, pkt);
    if Ipv4Offset(pkt).Some? {
      var l3 := Ipv4Offset(pkt).value;
      assert l3 + 20 <= |pkt| ==> Ihl(pkt, l3) == 4 * (pkt[l3] % 16) as int;
      if l3 + 20 <= |pkt| {
        NoOtherTransport(pkt[l3 + Ihl(pkt, l3)..], pkt[l3 + 9]);
      }
      if o.Rewritten? {
        assert TakenL4(pkt, l3);
        WirePacketFormat(aes, p, ctx.current, counter, salt, pkt, l3);
      }
    }
  }

  lemma NoOtherTransport(seg: seq<byte>, proto: byte)
    ensures TransportHdrSize(seg, proto).Some? ==> (proto == 6 || proto == 17) && |seg| >= 8
  {
  }

  lemma WirePacketFormat(aes: Aes, p: Params, key: Key, counter: u32, salt: Salt, pkt: seq<byte>, l3: nat)
    requires p.Valid() && TransportAt(pkt, l3) && l3 + Ihl(pkt, l3) + PortLen <= |pkt|
    ensures var nonce := Nonce(counter, salt, p.nonceSize);
            var w := WirePacket(aes, p, key, nonce, pkt, l3);
            var at := l3 + Ihl(pkt, l3) + 4;
            && |w| == |pkt| + p.nonceSize + 2 + (if p.mode == 1 then 16 else 0)
            && Wired(aes, p, key, counter, salt, pkt[..at], l3, Ihl(pkt, l3), (|w| - l3) % 0x1_0000,
                     [p.policyId, 0xA5], pkt[at..], w)
  {
    hide Seal;
    hide PatchIpv4;
    hide Nonce;
    hide Wired;
    var nonce := Nonce(counter, salt, p.nonceSize);
    var at := l3 + Ihl(pkt, l3) + 4;
    var w := WirePacket(aes, p, key, nonce, pkt, l3);
    WiredParts(aes, p, key, counter, salt, pkt[..at], l3, Ihl(pkt, l3), (|w| - l3) % 0x1_0000, [p.policyId, 0xA5],
               pkt[at..]);
    assert TunnelHdr(p, nonce, TunnelMagic) == nonce + [p.policyId, 0xA5];
  }

  /** Fragments of layer 4: 0x5A, the id in network order, the index and a zero follow the policy id. */
  lemma FragmentFormatL4(aes: Aes, p: Params, key: Key, counter: u32, salt: Salt, front: seq<byte>, ihl: nat,
                         plain: seq<byte>, id: u16, index: byte)
    requires p.Valid() && 20 <= ihl && |front| == 14 + ihl + PortLen && front[14] > 0
    ensures var w := WireFragment(aes, p, key, Nonce(counter, salt, p.nonceSize), front, ihl, plain, id, index);
            Wired(aes, p, key, counter, salt, front, 14, ihl, (|w| - 14) % 0x1_0000,
                  [p.policyId, 0x5A, id / 256, id % 256, index, 0], plain, w)
  {
    hide Seal;
    hide PatchIpv4;
    hide Nonce;
    hide Wired;
    var nonce := Nonce(counter, salt, p.nonceSize);
    var w := WireFragment(aes, p, key, nonce, front, ihl, plain, id, index);
    WiredParts(aes, p, key, counter, salt, front, 14, ihl, (|w| - 14) % 0x1_0000,
               [p.policyId, 0x5A, id / 256, id % 256, index, 0], plain);
    assert TunnelHdr(p, nonce, FragMagic) + FragTag(id, index)
        == nonce + [p.policyId, 0x5A, id / 256, id % 256, index, 0];
  }

  // ---- layer 3 ----

  /** A whole IPv4 header right behind untagged addresses. */
  lemma Ipv4At14Exactly(pkt: seq<byte>)
    ensures Ipv4At14(pkt) <==>
              && |pkt| >= 34 && pkt[12] == 0x08 && pkt[13] == 0 && pkt[14] % 16 >= 5
              && 14 + 4 * (pkt[14] % 16) as int <= |pkt|
  {
  }

  /**
   * Layer 3 sends a packet exactly when it has a context, IPv4 lies at 14, and nothing that looks like
   * a fragment's mark 0x5C stands where its tunnel header would end: with the marker protocol, the
   * total length raised by what is added, and behind the header nonce, policy id, true protocol and
   * the rest sealed.
   */
  lemma EncryptFormatL3(aes: Aes, p: Params, ctx: Ctx, counter: u32, salt: Salt, pkt: seq<byte>)
    requires p.Valid()
    ensures var o := EncryptResultL3(aes, p, ctx, counter, salt, pkt);
            var added := p.nonceSize + 2 + (if p.mode == 1 then 16 else 0);
            && (o.Failed? <==>
                 || !ctx.initialized || |pkt| < 22
                 || (|pkt| >= 34 && pkt[12] == 0x08 && pkt[13] == 0 && !Ipv4At14(pkt)))
            && (o.Rewritten? <==>
                 && ctx.initialized && Ipv4At14(pkt)
                 && var mark := 14 + 4 * (pkt[14] % 16) as int + p.nonceSize + 1;
                    mark < |pkt| ==> pkt[mark] != 0x5C)
            && (o.Rewritten? ==>
                 var ihl := 4 * (pkt[14] % 16) as int;
                 var at := 14 + ihl;
                 && |o.pkt| == |pkt| + added
                 && Wired(aes, p, ctx.current, counter, salt, pkt[..at][23 := p.fakeProtocol], 14, ihl,
                          (pkt[16] as int * 256 + pkt[17] as int + added) % 0x1_0000, [p.policyId, pkt[23]],
                          pkt[at..], o.pkt))
  {
    hide Nonce;
    hide EncryptResultL3;
    hide WirePacketL3;
    hide Wired;
    EncryptsL3(aes, p, ctx, counter, salt, pkt);
    Ipv4At14Exactly(pkt);
    if EncryptResultL3(aes, p, ctx, counter, salt, pkt).Rewritten? {
      WirePacketFormatL3(aes, p, ctx.current, counter, salt, pkt);
    }
  }

  lemma EncryptsL3(aes: Aes, p: Params, ctx: Ctx, counter: u32, salt: Salt, pkt: seq<byte>)
    requires p.Valid()
    ensures var o := EncryptResultL3(aes, p, ctx, counter, salt, pkt);
            && (o.Failed? <==>
                 || !ctx.initialized || |pkt| < 22
                 || (|pkt| >= 34 && pkt[12] == 0x08 && pkt[13] == 0 && !Ipv4At14(pkt)))
            && (o.Rewritten? <==>
                 && ctx.initialized && Ipv4At14(pkt)
                 && var mark := 14 + 4 * (pkt[14] % 16) as int + p.nonceSize + 1;
                    mark < |pkt| ==> pkt[mark] != 0x5C)
            && (o.Rewritten? ==> o.pkt == WirePacketL3(aes, p, ctx.current, Nonce(counter, salt, p.nonceSize), pkt))
  {
    hide Nonce;
    hide WirePacketL3;
  }

  lemma WirePacketFormatL3(aes: Aes, p: Params, key: Key, counter: u32, salt: Salt, pkt: seq<byte>)
    requires p.Valid() && Ipv4At14(pkt)
    ensures var w := WirePacketL3(aes, p, key, Nonce(counter, salt, p.nonceSize), pkt);
            var added := p.nonceSize + 2 + (if p.mode == 1 then 16 else 0);
            var at := 14 + Ihl(pkt, 14);
            && |w| == |pkt| + added
            && Wired(aes, p, key, counter, salt, pkt[..at][23 := p.fakeProtocol], 14, Ihl(pkt, 14),
                     (pkt[16] as int * 256 + pkt[17] as int + added) % 0x1_0000, [p.policyId, pkt[23]], pkt[at..], w)
  {
    hide Seal;
    hide PatchIpv4;
    hide Nonce;
    hide Wired;
    var nonce := Nonce(counter, salt, p.nonceSize);
    var at := 14 + Ihl(pkt, 14);
    var total := (pkt[16] as int * 256 + pkt[17] as int + p.nonceSize + 2 + p.TagLen()) % 0x1_0000;
    WiredParts(aes, p, key, counter, salt, pkt[..at][23 := p.fakeProtocol], 14, Ihl(pkt, 14), total,
               [p.policyId, pkt[23]], pkt[at..]);
    assert TunnelHdrL3(p, nonce, pkt[23]) == nonce + [p.policyId, pkt[23]];
  }

  /** When the total length fits the frame, that of the wire frame fits it as well. */
  lemma LengthStaysTrue(aes: Aes, p: Params, ctx: Ctx, counter: u32, salt: Salt, pkt: seq<byte>)
    requires p.Valid() && EncryptResultL3(aes, p, ctx, counter, salt, pkt).Rewritten?
    requires pkt[16] as int * 256 + pkt[17] as int == |pkt| - 14
    ensures var w := EncryptResultL3(aes, p, ctx, counter, salt, pkt).pkt;
            w[16] as int * 256 + w[17] as int == (|w| - 14) % 0x1_0000
  {
    hide EncryptResultL3;
    hide Carries;
    hide IsNonce;
    hide Summed;
    EncryptFormatL3(aes, p, ctx, counter, salt, pkt);
    var w := EncryptResultL3(aes, p, ctx, counter, salt, pkt).pkt;
    var at := 14 + 4 * (pkt[14] % 16) as int;
    assert w[..at][16] == w[16] && w[..at][17] == w[17];
  }

  lemma FragmentFormatL3(aes: Aes, p: Params, key: Key, counter: u32, salt: Salt, head: seq<byte>, ihl: nat,
                         plain: seq<byte>, id: u16, index: byte)
    requires p.Valid() && 20 <= ihl && |head| == 14 + ihl && head[14] > 0
    ensures var w := WireFragmentL3(aes, p, key, Nonce(counter, salt, p.nonceSize), head, ihl, plain, id, index);
            Wired(aes, p, key, counter, salt, head[23 := p.fakeProtocol], 14, ihl, (|w| - 14) % 0x1_0000,
                  [p.policyId, 0x5C, id / 256, id % 256, index, 0], plain, w)
  {
    hide Seal;
    hide PatchIpv4;
    hide Nonce;
    hide Wired;
    var nonce := Nonce(counter, salt, p.nonceSize);
    var w := WireFragmentL3(aes, p, key, nonce, head, ihl, plain, id, index);
    WiredParts(aes, p, key, counter, salt, head[23 := p.fakeProtocol], 14, ihl, (|w| - 14) % 0x1_0000,
               [p.policyId, 0x5C, id / 256, id % 256, index, 0], plain);
    assert TunnelHdr(p, nonce, FragMagicL3) + FragTag(id, index)
        == nonce + [p.policyId, 0x5C, id / 256, id % 256, index, 0];
  }

  // ---- layer 2 ----

  /** Addresses, marker, policy id, nonce, mid in clear, and plain sealed. */
  predicate WiredL2(aes: Aes, p: Params, key: Key, counter: u32, salt: Salt, eth: seq<byte>, mid: seq<byte>,
                    plain: seq<byte>, w: seq<byte>)
    requires p.Valid() && |eth| >= 14
  {
    var bodyAt := 14 + p.nonceSize + |mid|;
    && |w| >= bodyAt
    && w[..12] == eth[..12] && w[12] == p.fakeEthertype / 256 && w[13] == p.policyId
    && IsNonce(w[14..14 + p.nonceSize], counter, salt)
    && w[14 + p.nonceSize..bodyAt] == mid
    && Carries(aes, p, key, w[14..14 + p.nonceSize], plain, w[bodyAt..])
  }

  lemma WiredPartsL2(aes: Aes, p: Params, key: Key, counter: u32, salt: Salt, eth: seq<byte>, mid: seq<byte>,
                     plain: seq<byte>)
    requires p.Valid() && |eth| >= 14
    ensures var nonce := Nonce(counter, salt, p.nonceSize);
            WiredL2(aes, p, key, counter, salt, eth, mid, plain,
                    Marked(p, eth) + (nonce + mid) + Seal(aes, p, key, nonce, plain))
  {
    hide Seal;
    hide Nonce;
    hide Carries;
    hide IsNonce;
    var nonce := Nonce(counter, salt, p.nonceSize);
    var head, body := Marked(p, eth), Seal(aes, p, key, nonce, plain);
    var w := head + (nonce + mid) + body;
    CutThree(head, nonce + mid, body);
    assert w[..12] == head[..12] == eth[..12];
    assert w[14..14 + p.nonceSize] == nonce;
    assert w[14 + p.nonceSize..14 + p.nonceSize + |mid|] == mid;
    NonceExactly(nonce, counter, salt);
    SealCarriesExactly(aes, p, key, nonce, plain, body);
  }

  /**
   * Layer 2 sends an untagged IPv4 frame of at least 22 octets exactly when it has a context and a
   * marker: everything behind the Ethernet header is sealed.
   */
  lemma EncryptFormatL2(aes: Aes, p: Params, ctx: Ctx, counter: u32, salt: Salt, pkt: seq<byte>)
    requires p.Valid()
    ensures var o := EncryptResultL2(aes, p, ctx, counter, salt, pkt);
            && (o.Failed? <==> !ctx.initialized || |pkt| < 22)
            && (o.Rewritten? <==>
                 ctx.initialized && |pkt| >= 22 && pkt[12] == 0x08 && pkt[13] == 0 && p.fakeEthertype != 0)
            && (o.Rewritten? ==>
                 && |o.pkt| == |pkt| + p.nonceSize + (if p.mode == 1 then 16 else 0)
                 && WiredL2(aes, p, ctx.current, counter, salt, pkt, [], pkt[14..], o.pkt))
  {
    hide Nonce;
    hide Seal;
    hide WiredL2;
    if |pkt| >= 22 {
      var nonce := Nonce(counter, salt, p.nonceSize);
      WiredPartsL2(aes, p, ctx.current, counter, salt, pkt, [], pkt[14..]);
      assert nonce + [] == nonce;
    }
  }

  lemma FragmentFormatL2(aes: Aes, p: Params, key: Key, counter: u32, salt: Salt, eth: seq<byte>,
                         plain: seq<byte>, id: u16, index: byte)
    requires p.Valid() && |eth| >= 14
    ensures var w := WireFragmentL2(aes, p, key, Nonce(counter, salt, p.nonceSize), eth, plain, id, index);
            WiredL2(aes, p, key, counter, salt, eth, [0x5B, id / 256, id % 256, index, 0], plain, w)
  {
    hide Nonce;
    hide Seal;
    hide WiredL2;
    var nonce := Nonce(counter, salt, p.nonceSize);
    WiredPartsL2(aes, p, key, counter, salt, eth, [0x5B, id / 256, id % 256, index, 0], plain);
    assert FragHdrL2(nonce, id, index) == nonce + [0x5B, id / 256, id % 256, index, 0];
  }
}
