/**
 * Layer-3 fragments and whole-packet decryption (src/crypto/crypto_layer3.c): the whole IPv4
 * payload is sealed and the header carries a marker protocol number.
 */
module Layer3 {
  import opened Bytes
  import opened Checksum
  import opened PacketCrypto
  import opened Layer4

  const FragMagicL3: byte := 0x5C
  const ProtoAt := 23

  /** frag_require_ipv4; also pkt_is_ipv4 followed by ipv4_hdr_len_at. */
  predicate Ipv4At14(pkt: seq<byte>) {
    |pkt| >= 34 && EtherTypeAt(pkt, 12) == 0x0800 && Ihl(pkt, 14) >= 20 && 14 + Ihl(pkt, 14) <= |pkt|
  }

  /** crypto_layer3_encrypt_fragment_single on head = Ethernet and IPv4 header. */
  function WireFragmentL3(aes: Aes, p: Params, key: Key, nonce: seq<byte>, head: seq<byte>, ihl: nat,
                          plain: seq<byte>, id: u16, index: byte): (w: seq<byte>)
    requires |nonce| <= IvSize && 20 <= ihl && |head| == 14 + ihl
    ensures |w| == |head| + |nonce| + 2 + FragTagLen + |plain| + p.TagLen()
  {
    PatchIpv4(head[ProtoAt := p.fakeProtocol], 14, ihl,
              (ihl + |nonce| + 2 + FragTagLen + |plain| + p.TagLen()) % 0x1_0000)
      + (TunnelHdr(p, nonce, FragMagicL3) + FragTag(id, index)) + Seal(aes, p, key, nonce, plain)
  }

  /** Headers with the IPv4 length and checksum of the plaintext that now follows them. */
  function RejoinL3(head: seq<byte>, plain: seq<byte>): (r: seq<byte>)
    requires |head| >= 34 && Ihl(head, 14) >= 20 && |head| == 14 + Ihl(head, 14)
    ensures |r| == |head| + |plain|
  {
    PatchIpv4(head, 14, Ihl(head, 14), (Ihl(head, 14) + |plain|) % 0x1_0000) + plain
  }

  /** crypto_layer3_decrypt_fragment. */
  function DecryptFragmentL3(aes: Aes, p: Params, ctx: Ctx, pkt: seq<byte>): Option<Fragment>
    requires p.Valid()
  {
    if !ctx.initialized || !Ipv4At14(pkt) || pkt[ProtoAt] != p.fakeProtocol then None
    else
      var at := 14 + Ihl(pkt, 14);
      var tagAt := at + p.TunnelHdrSize();
      if |pkt| < tagAt + FragTagLen || pkt[at + p.nonceSize + 1] != FragMagicL3 then None
      else
        match Open(aes, p, ctx, pkt[at..at + p.nonceSize], pkt[tagAt + FragTagLen..])
        case None => None
        case Some(plain) =>
          Some(Fragment(RejoinL3(pkt[..at], plain), Be16(pkt[tagAt], pkt[tagAt + 1]), pkt[tagAt + 2]))
  }

  /** Where the parts of a fragment lie. */
  lemma LayoutPartsL3(head: seq<byte>, hdr: seq<byte>, tag: seq<byte>, body: seq<byte>, ns: nat)
    requires |head| >= 34 && |hdr| == ns + 2 && |tag| == FragTagLen
    ensures var w, at := head + (hdr + tag) + body, |head|;
            && w[..at] == head && w[at..at + ns] == hdr[..ns] && w[at + ns + 2 + FragTagLen..] == body
            && w[at + ns + 1] == hdr[ns + 1]
            && w[at + ns + 2] == tag[0] && w[at + ns + 3] == tag[1] && w[at + ns + 4] == tag[2]
            && Ihl(w, 14) == Ihl(head, 14) && (forall i :: 0 <= i < at ==> w[i] == head[i])
  {
    hide Ihl;
    var w := head + (hdr + tag) + body;
    SameIhl(w, head, 14);
  }

  lemma SameIhl(a: seq<byte>, b: seq<byte>, l3: nat)
    requires l3 < |a| && l3 < |b| && a[l3] == b[l3]
    ensures Ihl(a, l3) == Ihl(b, l3)
  {
  }

  /** What a layout of headers, tunnel header with tag, and body decrypts to. */
  lemma DecryptLayoutL3(aes: Aes, p: Params, ctx: Ctx, head: seq<byte>, nonce: seq<byte>, id: u16, index: byte,
                        body: seq<byte>, plain: seq<byte>)
    requires p.Valid() && ctx.initialized && |nonce| == p.nonceSize
    requires Ipv4At14(head) && |head| == 14 + Ihl(head, 14) && head[ProtoAt] == p.fakeProtocol
    requires Open(aes, p, ctx, nonce, body) == Some(plain)
    ensures DecryptFragmentL3(aes, p, ctx, head + (TunnelHdr(p, nonce, FragMagicL3) + FragTag(id, index)) + body)
            == Some(Fragment(RejoinL3(head, plain), id, index))
  {
    hide Open;
    hide RejoinL3;
    hide Ihl;
    hide Be16;
    var hdr, tag := TunnelHdr(p, nonce, FragMagicL3), FragTag(id, index);
    assert hdr[..p.nonceSize] == nonce;
    LayoutPartsL3(head, hdr, tag, body, p.nonceSize);
    Be16Unique(Hi(id), Lo(id), id);
  }

  /** A wire fragment decrypts to its plaintext behind marked headers, with its own tag. */
  lemma FragmentRoundTripL3(aes: Aes, p: Params, ctx: Ctx, nonce: seq<byte>, head: seq<byte>,
                            plain: seq<byte>, id: u16, index: byte)
    requires p.Valid() && ctx.initialized && |nonce| == p.nonceSize
    requires Ipv4At14(head) && |head| == 14 + Ihl(head, 14)
    ensures var ihl := Ihl(head, 14);
            var marked := head[ProtoAt := p.fakeProtocol];
            Ihl(marked, 14) == ihl &&
            DecryptFragmentL3(aes, p, ctx, WireFragmentL3(aes, p, ctx.current, nonce, head, ihl, plain, id, index))
            == Some(Fragment(RejoinL3(marked, plain), id, index))
  {
    hide PatchIpv4;
    hide Seal;
    hide Open;
    hide DecryptFragmentL3;
    hide TunnelHdr;
    hide FragTag;
    var ihl := Ihl(head, 14);
    var marked := head[ProtoAt := p.fakeProtocol];
    var total := (ihl + |nonce| + 2 + FragTagLen + |plain| + p.TagLen()) % 0x1_0000;
    var patched := PatchIpv4(marked, 14, ihl, total);
    PatchOthers(marked, 14, ihl, total, 12);
    PatchOthers(marked, 14, ihl, total, 13);
    PatchOthers(marked, 14, ihl, total, 14);
    PatchOthers(marked, 14, ihl, total, ProtoAt);
    OpenSealed(aes, p, ctx, nonce, plain);
    DecryptLayoutL3(aes, p, ctx, patched, nonce, id, index, Seal(aes, p, ctx.current, nonce, plain), plain);
    PatchTwice(marked, 14, ihl, total, (ihl + |plain|) % 0x1_0000);
  }

  // ---- in place ----

  /** crypto_layer3_encrypt_fragment_single. */
  method EncryptFragmentL3(aes: Aes, p: Params, ctx: Ctx, counter: u32, salt: Salt, head: seq<byte>, ihl: nat,
                           plain: seq<byte>, id: u16, index: byte, out: array<byte>, outMax: nat) returns (r: int)
    requires p.Valid() && ihl <= 60 && |head| == 14 + ihl && outMax <= out.Length
    modifies out
    ensures r == -1 <==> !ctx.initialized || plain == [] || ihl < 20 ||
                         |head| + p.TunnelHdrSize() + FragTagLen + |plain| + p.TagLen() > outMax
    ensures r == -1 || 0 <= r <= outMax
    ensures var nonce := Nonce(counter, salt, p.nonceSize);
            r == -1 || out[..r] == WireFragmentL3(aes, p, ctx.current, nonce, head, ihl, plain, id, index)
  {
    hide PatchIpv4;
    hide Seal;
    hide Splice;
    hide TunnelHdr;
    if !ctx.initialized || plain == [] || ihl < 20 {
      return -1;
    }
    var overhead := p.TunnelHdrSize() + FragTagLen + p.TagLen();
    if |head| + overhead + |plain| > outMax {
      return -1;
    }
    var nonce := Nonce(counter, salt, p.nonceSize);
    ghost var b0 := out[..];
    var marked := head[ProtoAt := p.fakeProtocol];
    Copy(out, 0, marked);
    Copy(out, |head|, plain);
    PlaceTwo(b0, marked, plain);
    var hdr := TunnelHdr(p, nonce, FragMagicL3) + FragTag(id, index);
    r := SealAndShift(aes, p, ctx.current, nonce, hdr, out, |head| + |plain|, |head|, 14, ihl,
                      (ihl + overhead + |plain|) % 0x1_0000);
  }

  /** crypto_layer3_decrypt_fragment. */
  method DecryptFragmentL3InPlace(aes: Aes, p: Params, ctx: Ctx, packet: array<byte>, n: nat)
    returns (r: int, id: u16, index: byte)
    requires p.Valid() && n <= packet.Length
    modifies packet
    ensures match DecryptFragmentL3(aes, p, ctx, old(packet[..n]))
            case None => r == -1
            case Some(f) => r == |f.pkt| <= n && packet[..r] == f.pkt && id == f.id && index == f.index
  {
    hide Open;
    hide OpenLeft;
    hide Splice;
    hide PatchIpv4;
    r, id, index := -1, 0, 0;
    ghost var b0 := packet[..];
    var pkt := packet[..n];
    if !ctx.initialized || !Ipv4At14(pkt) || pkt[ProtoAt] != p.fakeProtocol {
      return;
    }
    var ihl := Ihl(pkt, 14);
    var at := 14 + ihl;
    var tagAt := at + p.TunnelHdrSize();
    if n < tagAt + FragTagLen || pkt[at + p.nonceSize + 1] != FragMagicL3 {
      return;
    }
    id, index := Be16(pkt[tagAt], pkt[tagAt + 1]), pkt[tagAt + 2];
    var bodyAt := tagAt + FragTagLen;
    assert pkt == b0[..n];
    SliceOfPrefix(b0, n, bodyAt, n);
    SliceOfPrefix(b0, n, 0, at);
    r := OpenAndRejoin(aes, p, ctx, pkt[at..at + p.nonceSize], packet, n, 14, ihl, at, bodyAt);
  }
}
