/**
 * Layer-2 encryption (src/crypto/crypto_layer2.c): everything behind the Ethernet header is
 * sealed; the EtherType field carries a marker octet and the policy id.
 */
module Layer2 {
  import opened Bytes
  import opened PacketCrypto
  import opened Layer4

  const FragMagicL2: byte := 0x5B

  predicate IsIpv4Eth(eth: seq<byte>)
    requires |eth| >= 14
  {
    EtherTypeAt(eth, 12) == 0x0800
  }

  /** The Ethernet header with marker and policy id in its EtherType field. */
  function Marked(p: Params, eth: seq<byte>): (m: seq<byte>)
    requires |eth| >= 14
    ensures |m| == 14
  {
    eth[..12] + [Hi(p.fakeEthertype), p.policyId]
  }

  predicate HasMarker(p: Params, pkt: seq<byte>)
    requires |pkt| >= 14
  {
    p.fakeEthertype != 0 && pkt[12] == Hi(p.fakeEthertype)
  }

  // ---- whole packets ----

  function WirePacketL2(aes: Aes, p: Params, key: Key, nonce: seq<byte>, pkt: seq<byte>): (w: seq<byte>)
    requires |nonce| <= IvSize && |pkt| >= 14
    ensures |w| == |pkt| + |nonce| + p.TagLen()
  {
    Marked(p, pkt) + nonce + Seal(aes, p, key, nonce, pkt[14..])
  }

  /** crypto_layer2_encrypt. */
  function EncryptResultL2(aes: Aes, p: Params, ctx: Ctx, counter: u32, salt: Salt, pkt: seq<byte>): Outcome
    requires p.Valid()
  {
    if !ctx.initialized || |pkt| < 22 then Failed
    else if !IsIpv4Eth(pkt) || p.fakeEthertype == 0 then Unchanged
    else Rewritten(WirePacketL2(aes, p, ctx.current, Nonce(counter, salt, p.nonceSize), pkt))
  }

  /** verify_ipv4_after_decrypt: a plausible TTL and protocol. */
  predicate Ipv4Plausible(plain: seq<byte>) {
    |plain| >= 20 && plain[8] != 0 && plain[9] in {1, 2, 6, 17, 47, 50, 51, 58, 89, 132}
  }

  /** Only the current key is tried at this layer. */
  function OpenCurrent(aes: Aes, p: Params, ctx: Ctx, nonce: seq<byte>, body: seq<byte>): (r: Option<seq<byte>>)
    requires |nonce| <= IvSize
    ensures r.Some? ==> |r.value| + p.TagLen() == |body|
  {
    if |body| < p.TagLen() then None
    else
      var n := |body| - p.TagLen();
      var plain := Stream(aes, p, ctx.current, nonce, body[..n]);
      if !Accepts(aes, p, ctx.current, nonce, body[n..], body[..n]) || (!p.Gcm() && !Ipv4Plausible(plain)) then None
      else Some(plain)
  }

  predicate StartsWithIpv4Type(plain: seq<byte>) {
    |plain| >= 2 && plain[0] == 0x08 && plain[1] == 0x00
  }

  /** crypto_layer2_decrypt; a plaintext that starts 08 00 is taken for an inner EtherType. */
  function DecryptResultL2(aes: Aes, p: Params, ctx: Ctx, pkt: seq<byte>): Outcome
    requires p.Valid()
  {
    if !ctx.initialized || |pkt| < 14 + p.nonceSize then Failed
    else if !HasMarker(p, pkt) then Unchanged
    else if |pkt| > 14 + p.nonceSize && pkt[14 + p.nonceSize] == FragMagicL2 then Unchanged
    else
      match OpenCurrent(aes, p, ctx, pkt[14..14 + p.nonceSize], pkt[14 + p.nonceSize..])
      case None => Failed
      case Some(plain) =>
        Rewritten(pkt[..12] + [0x08, 0x00] + if StartsWithIpv4Type(plain) then plain[2..] else plain)
  }

  lemma OpenCurrentSealed(aes: Aes, p: Params, ctx: Ctx, nonce: seq<byte>, plain: seq<byte>)
    requires |nonce| <= IvSize
    ensures OpenCurrent(aes, p, ctx, nonce, Seal(aes, p, ctx.current, nonce, plain))
         == if p.Gcm() || Ipv4Plausible(plain) then Some(plain) else None
  {
    hide Stream;
    var c := Stream(aes, p, ctx.current, nonce, plain);
    var body := Seal(aes, p, ctx.current, nonce, plain);
    assert body[..|plain|] == c;
    StreamTwice(aes, p, ctx.current, nonce, plain);
  }

  /**
   * An encrypted packet decrypts to itself exactly when its first ciphertext octet is not the
   * fragment magic, it looks like IPv4 (or GCM is used), and it does not start 08 00.
   */
  lemma RoundTripL2(aes: Aes, p: Params, ctx: Ctx, counter: u32, salt: Salt, pkt: seq<byte>)
    requires p.Valid() && EncryptResultL2(aes, p, ctx, counter, salt, pkt).Rewritten?
    ensures var w := EncryptResultL2(aes, p, ctx, counter, salt, pkt).pkt;
            && |w| == |pkt| + p.nonceSize + p.TagLen()
            && (DecryptResultL2(aes, p, ctx, w) == Rewritten(pkt) <==>
                  && w[14 + p.nonceSize] != FragMagicL2
                  && (p.Gcm() || Ipv4Plausible(pkt[14..]))
                  && !StartsWithIpv4Type(pkt[14..]))
  {
    hide Seal;
    hide OpenCurrent;
    hide Ipv4Plausible;
    var nonce := Nonce(counter, salt, p.nonceSize);
    var plain := pkt[14..];
    var body := Seal(aes, p, ctx.current, nonce, plain);
    var w := WirePacketL2(aes, p, ctx.current, nonce, pkt);
    CutThree(Marked(p, pkt), nonce, body);
    assert w[..12] == pkt[..12] && w[12] == Marked(p, pkt)[12];
    OpenCurrentSealed(aes, p, ctx, nonce, plain);
    assert pkt == pkt[..12] + [0x08, 0x00] + plain;
    if StartsWithIpv4Type(plain) {
      assert |pkt[..12] + [0x08, 0x00] + plain[2..]| != |pkt|;
    }
  }

  // ---- fragments ----

  function FragHdrL2(nonce: seq<byte>, id: u16, index: byte): (h: seq<byte>)
    ensures |h| == |nonce| + 1 + FragTagLen
  {
    nonce + [FragMagicL2] + FragTag(id, index)
  }

  /** crypto_layer2_encrypt_fragment_single. */
  function WireFragmentL2(aes: Aes, p: Params, key: Key, nonce: seq<byte>, eth: seq<byte>,
                          plain: seq<byte>, id: u16, index: byte): (w: seq<byte>)
    requires |nonce| <= IvSize && |eth| >= 14
    ensures |w| == 14 + |nonce| + 1 + FragTagLen + |plain| + p.TagLen()
  {
    Marked(p, eth) + FragHdrL2(nonce, id, index) + Seal(aes, p, key, nonce, plain)
  }

  /** crypto_layer2_decrypt_fragment. */
  function DecryptFragmentL2(aes: Aes, p: Params, ctx: Ctx, pkt: seq<byte>): Option<Fragment>
    requires p.Valid()
  {
    var tagAt := 14 + p.nonceSize + 1;
    if !ctx.initialized || |pkt| < tagAt + FragTagLen || !HasMarker(p, pkt) || pkt[tagAt - 1] != FragMagicL2 then None
    else
      match Open(aes, p, ctx, pkt[14..14 + p.nonceSize], pkt[tagAt + FragTagLen..])
      case None => None
      case Some(plain) => Some(Fragment(pkt[..14] + plain, Be16(pkt[tagAt], pkt[tagAt + 1]), pkt[tagAt + 2]))
  }

  lemma FragmentRoundTripL2(aes: Aes, p: Params, ctx: Ctx, nonce: seq<byte>, eth: seq<byte>,
                            plain: seq<byte>, id: u16, index: byte)
    requires p.Valid() && ctx.initialized && |nonce| == p.nonceSize && |eth| >= 14 && p.fakeEthertype != 0
    ensures DecryptFragmentL2(aes, p, ctx, WireFragmentL2(aes, p, ctx.current, nonce, eth, plain, id, index))
            == Some(Fragment(Marked(p, eth) + plain, id, index))
  {
    hide Seal;
    hide Open;
    var front, mid, body := Marked(p, eth), FragHdrL2(nonce, id, index), Seal(aes, p, ctx.current, nonce, plain);
    var w := WireFragmentL2(aes, p, ctx.current, nonce, eth, plain, id, index);
    var tagAt := 14 + p.nonceSize + 1;
    CutThree(front, mid, body);
    assert mid[..p.nonceSize] == nonce;
    SliceOfSlice(w, 14, 14 + |mid|, 0, p.nonceSize);
    assert w[tagAt - 1] == FragMagicL2 && w[tagAt] == Hi(id) && w[tagAt + 1] == Lo(id) && w[tagAt + 2] == index;
    Be16Unique(Hi(id), Lo(id), id);
    OpenSealed(aes, p, ctx, nonce, plain);
  }

  // ---- in place ----

  /** crypto_layer2_encrypt on a frame with room for the overhead. */
  method EncryptL2(aes: Aes, p: Params, ctx: Ctx, counter: u32, salt: Salt, packet: array<byte>, n: nat)
    returns (r: int)
    requires p.Valid() && n + p.nonceSize + p.TagLen() <= packet.Length
    modifies packet
    ensures Reports(EncryptResultL2(aes, p, ctx, counter, salt, old(packet[..n])), r, n, old(packet[..]), packet[..])
  {
    hide Seal;
    hide Splice;
    hide Stream;
    hide Marked;
    hide IsIpv4Eth;
    ghost var b0 := packet[..];
    var pkt := packet[..n];
    if !ctx.initialized || n < 22 {
      return -1;
    }
    if !IsIpv4Eth(pkt) || p.fakeEthertype == 0 {
      return n;
    }
    var nonce := Nonce(counter, salt, p.nonceSize);
    var encStart := 14 + p.nonceSize;
    var marked := Marked(p, pkt);
    Move(packet, encStart, 14, n - 14);
    Copy(packet, 0, marked + nonce);
    SliceOfPrefix(b0, n, 14, n);
    ShiftUp(b0, pkt[14..], marked + nonce);
    ghost var b2 := packet[..];
    var tag := SealInPlace(aes, p, ctx.current, nonce, packet, encStart, n - 14);
    Copy(packet, encStart + (n - 14), tag);
    r := n + p.nonceSize + p.TagLen();
    SealedLayout(b2, marked + nonce, pkt[14..], Stream(aes, p, ctx.current, nonce, pkt[14..]), tag);
    assert marked + nonce + (Stream(aes, p, ctx.current, nonce, pkt[14..]) + tag) == packet[..r];
  }

  /** Opens the body between at and n with the current key; the plaintext is left at at. */
  method OpenCurrentInPlace(aes: Aes, p: Params, ctx: Ctx, nonce: seq<byte>, a: array<byte>, at: nat, n: nat)
    returns (len: int)
    requires |nonce| <= IvSize && at <= n <= a.Length
    modifies a
    ensures match OpenCurrent(aes, p, ctx, nonce, old(a[..])[at..n])
            case None => len == -1
            case Some(plain) => len == |plain| && a[..] == Splice(old(a[..]), at, plain)
  {
    hide Stream;
    hide Splice;
    hide Ipv4Plausible;
    ghost var b0 := a[..];
    if n - at < p.TagLen() {
      return -1;
    }
    len := n - at - p.TagLen();
    SliceOfSlice(b0, at, n, 0, len);
    SliceOfSlice(b0, at, n, len, n - at);
    assert a[at..at + len] == b0[at..at + len] && a[at + len..n] == b0[at + len..n];
    var accepted := Accepts(aes, p, ctx.current, nonce, a[at + len..n], a[at..at + len]);
    StreamInPlace(aes, p, ctx.current, nonce, a, at, len);
    SpliceSelf(b0, at, Stream(aes, p, ctx.current, nonce, b0[at..at + len]));
    assert a[at..at + len] == a[..][at..at + len];
    if !accepted || (!p.Gcm() && !Ipv4Plausible(a[at..at + len])) {
      return -1;
    }
  }

  /** crypto_layer2_decrypt. */
  method DecryptL2(aes: Aes, p: Params, ctx: Ctx, packet: array<byte>, n: nat) returns (r: int)
    requires p.Valid() && n <= packet.Length
    modifies packet
    ensures Reports(DecryptResultL2(aes, p, ctx, old(packet[..n])), r, n, old(packet[..]), packet[..])
  {
    hide OpenCurrent;
    hide Splice;
    ghost var b0 := packet[..];
    var pkt := packet[..n];
    var encStart := 14 + p.nonceSize;
    if !ctx.initialized || n < encStart {
      return -1;
    }
    if !HasMarker(p, pkt) {
      return n;
    }
    if n > encStart && pkt[encStart] == FragMagicL2 {
      return n;
    }
    SliceOfPrefix(b0, n, encStart, n);
    SliceOfPrefix(b0, n, 0, 12);
    var len := OpenCurrentInPlace(aes, p, ctx, pkt[14..encStart], packet, encStart, n);
    if len < 0 {
      return -1;
    }
    ghost var plain := OpenCurrent(aes, p, ctx, pkt[14..encStart], pkt[encStart..]).value;
    SpliceSelf(b0, encStart, plain);
    assert packet[encStart..encStart + len] == packet[..][encStart..encStart + len];
    r := RestoreType(packet, encStart, encStart + len, plain);
    SliceOfPrefix(Splice(b0, encStart, plain), encStart, 0, 12);
    SliceOfPrefix(b0, encStart, 0, 12);
  }

  /** Puts the IPv4 EtherType back and moves the plaintext down, less an inner EtherType. */
  method RestoreType(packet: array<byte>, at: nat, end: nat, ghost plain: seq<byte>) returns (r: nat)
    requires 14 <= at <= end <= packet.Length && packet[at..end] == plain
    modifies packet
    ensures var kept := if StartsWithIpv4Type(plain) then plain[2..] else plain;
            r == 14 + |kept| <= end && packet[..r] == old(packet[..])[..12] + [0x08, 0x00] + kept
  {
    hide Splice;
    ghost var b1 := packet[..];
    var inner := StartsWithIpv4Type(packet[at..end]);
    var from := if inner then at + 2 else at;
    assert b1[from..end] == if inner then plain[2..] else plain;
    Copy(packet, 12, [0x08, 0x00]);
    Move(packet, 14, from, end - from);
    r := 14 + (end - from);
    RestoredType(b1, b1, from, end, if inner then plain[2..] else plain);
  }

  /** The EtherType put back and the plaintext moved down behind it. */
  lemma RestoredType(b0: seq<byte>, b1: seq<byte>, from: nat, end: nat, kept: seq<byte>)
    requires 14 <= from <= end <= |b1| == |b0| && b1[from..end] == kept && b0[..12] == b1[..12]
    ensures var b2 := Splice(b1, 12, [0x08, 0x00]);
            b2[from..end] == kept && Splice(b2, 14, kept)[..14 + |kept|] == b0[..12] + [0x08, 0x00] + kept
  {
    var b2 := Splice(b1, 12, [0x08, 0x00]);
    assert b2[from..end] == b1[from..end];
  }

  lemma ShiftUp(b: seq<byte>, data: seq<byte>, front: seq<byte>)
    requires 14 <= |front| && |front| + |data| <= |b|
    ensures Splice(Splice(b, |front|, data), 0, front)[..|front| + |data|] == front + data
  {
  }

  lemma SealedLayout(b: seq<byte>, front: seq<byte>, data: seq<byte>, c: seq<byte>, tag: seq<byte>)
    requires |c| == |data| && |front| + |data| + |tag| <= |b| && b[..|front| + |data|] == front + data
    ensures b[|front|..|front| + |data|] == data
    ensures Splice(Splice(b, |front|, c), |front| + |c|, tag)[..|front| + |c| + |tag|] == front + (c + tag)
  {
    assert b[..|front|] == front;
    CutThree(front, data, []);
    assert b[|front|..|front| + |data|] == b[..|front| + |data|][|front|..];
  }

  /** crypto_layer2_decrypt_fragment. */
  method DecryptFragmentL2InPlace(aes: Aes, p: Params, ctx: Ctx, packet: array<byte>, n: nat)
    returns (r: int, id: u16, index: byte)
    requires p.Valid() && n <= packet.Length
    modifies packet
    ensures match DecryptFragmentL2(aes, p, ctx, old(packet[..n]))
            case None => r == -1
            case Some(f) => r == |f.pkt| <= n && packet[..r] == f.pkt && id == f.id && index == f.index
  {
    hide OpenLeft;
    hide OpenFor;
    hide Splice;
    r, id, index := -1, 0, 0;
    ghost var b0 := packet[..];
    var pkt := packet[..n];
    var tagAt := 14 + p.nonceSize + 1;
    if !ctx.initialized || n < tagAt + FragTagLen || !HasMarker(p, pkt) || pkt[tagAt - 1] != FragMagicL2 {
      return;
    }
    id, index := Be16(pkt[tagAt], pkt[tagAt + 1]), pkt[tagAt + 2];
    var bodyAt := tagAt + FragTagLen;
    SliceOfPrefix(b0, n, bodyAt, n);
    SliceOfPrefix(b0, n, 0, 14);
    var len := OpenBody(aes, p, ctx, pkt[14..14 + p.nonceSize], None, packet, bodyAt, n);
    if len < 0 {
      return;
    }
    ghost var plain := Open(aes, p, ctx, pkt[14..14 + p.nonceSize], pkt[bodyAt..]).value;
    SpliceSelf(b0, bodyAt, plain);
    Move(packet, 14, bodyAt, len);
    CloseGap(b0, 14, bodyAt, plain);
    r := 14 + len;
  }

  /** crypto_layer2_encrypt_fragment_single. */
  method EncryptFragmentL2(aes: Aes, p: Params, ctx: Ctx, counter: u32, salt: Salt, eth: seq<byte>,
                           plain: seq<byte>, id: u16, index: byte, out: array<byte>, outMax: nat) returns (r: int)
    requires p.Valid() && |eth| == 14 && outMax <= out.Length
    modifies out
    ensures r == -1 <==> !ctx.initialized || plain == [] || !IsIpv4Eth(eth) || p.fakeEthertype == 0 ||
                         14 + p.nonceSize + 1 + FragTagLen + |plain| + p.TagLen() > outMax
    ensures r == -1 || 0 <= r <= outMax
    ensures var nonce := Nonce(counter, salt, p.nonceSize);
            r == -1 || out[..r] == WireFragmentL2(aes, p, ctx.current, nonce, eth, plain, id, index)
  {
    hide Seal;
    hide Splice;
    hide Stream;
    if !ctx.initialized || plain == [] || !IsIpv4Eth(eth) {
      return -1;
    }
    var encOff := 14 + p.nonceSize + 1 + FragTagLen;
    if encOff + |plain| + p.TagLen() > outMax || p.fakeEthertype == 0 {
      return -1;
    }
    var nonce := Nonce(counter, salt, p.nonceSize);
    var front := Marked(p, eth) + FragHdrL2(nonce, id, index);
    ghost var b0 := out[..];
    Copy(out, 0, front);
    Copy(out, encOff, plain);
    PlaceTwo(b0, front, plain);
    ghost var b2 := out[..];
    assert b2[..encOff + |plain|] == b2[..encOff] + b2[encOff..encOff + |plain|] == front + plain;
    var tag := SealInPlace(aes, p, ctx.current, nonce, out, encOff, |plain|);
    Copy(out, encOff + |plain|, tag);
    r := encOff + |plain| + p.TagLen();
    SealedLayout(b2, front, plain, Stream(aes, p, ctx.current, nonce, plain), tag);
    assert out[..r] == front + (Stream(aes, p, ctx.current, nonce, plain) + tag);
  }
}
