/**
 * Which configurations can tell their layer-4 packets apart. A policy is recognised by its wire id
 * and a marker behind a nonce of its own size, so policies with different nonce sizes look at
 * different octets (crypto_l4_extract_policy_id_ipv4 in src/crypto/crypto_dispatch.c).
 */
module NonceSizes {
  import opened Bytes
  import opened Checksum
  import opened ConfigMerge
  import opened CryptoRuntime
  import opened Dispatch
  import opened Layer4
  import opened PacketCrypto
  import opened Policy

  /**
   * What policy j looks at is never what policy i writes: it is no layer-4 policy, or its nonce has
   * the same size, or one octet less or more while the wire id that then meets the marker is not 0xA5.
   */
  predicate Harmless(ps: seq<Policy>, j: nat, i: nat)
    requires j < |ps| && i < |ps|
  {
    || ps[j].action != EncryptL4 || ps[j].nonceSize <= 0 || ps[j].nonceSize == ps[i].nonceSize
    || (ps[j].nonceSize == ps[i].nonceSize - 1 && WireId(ps[i]) != TunnelMagic)
    || (ps[j].nonceSize == ps[i].nonceSize + 1 && WireId(ps[j]) != TunnelMagic)
  }

  /** All policies before i are harmless to its packets. */
  predicate Separable(ps: seq<Policy>, i: nat)
    requires i < |ps|
  {
    forall j :: 0 <= j < i ==> Harmless(ps, j, i)
  }

  /** What the wire packet carries behind the ports. */
  function Tail(aes: Aes, p: Params, key: Key, nonce: seq<byte>, plain: seq<byte>): seq<byte>
    requires |nonce| <= IvSize
  {
    TunnelHdr(p, nonce, TunnelMagic) + Seal(aes, p, key, nonce, plain)
  }

  lemma WireTail(aes: Aes, p: Params, key: Key, nonce: seq<byte>, pkt: seq<byte>, l3: nat)
    requires |nonce| <= IvSize && TransportAt(pkt, l3) && l3 + Ihl(pkt, l3) + PortLen <= |pkt|
    ensures var at := l3 + Ihl(pkt, l3) + PortLen;
            WirePacket(aes, p, key, nonce, pkt, l3)[at..] == Tail(aes, p, key, nonce, pkt[at..])
  {
    hide Seal;
    hide PatchIpv4;
    hide TunnelHdr;
  }

  // ---- harmless policies do no harm ----

  /** No harmless policy recognises what policy i wrote. */
  lemma HarmlessMisses(ps: seq<Policy>, j: nat, i: nat, w: seq<byte>, at: nat)
    requires j < |ps| && i < |ps| && j != i && IdsDistinct(ps) && Harmless(ps, j, i) && Hit(ps, i, w, at)
    ensures !Hit(ps, j, w, at)
  {
    assert ps[j].id != ps[i].id;
  }

  // ---- every other policy can hit ----

  /** The octets wanted behind the ports: own id and marker, and those that policy j looks for. */
  function Wanted(ns: nat, id: byte, nj: nat, idj: byte): (t: seq<byte>)
    ensures |t| == ns + 22
  {
    seq(ns + 22, k => if k == ns then id else if k == ns + 1 then TunnelMagic
                      else if k == nj then idj else if k == nj + 1 then TunnelMagic else 0)
  }

  /** Any nonce that starts with zero occurs. */
  lemma AnyNonce(n: seq<byte>) returns (counter: u32, salt: Salt)
    requires 1 <= |n| <= 16 && n[0] == 0
    ensures Nonce(counter, salt, |n|) == n
  {
    var m: seq<byte> := n + seq(20 - |n|, _ => 0);
    counter := m[1] as int * 0x1_0000 + m[2] as int * 0x100 + m[3];
    salt := m[4..];
    CounterOctets(m[1], m[2], m[3]);
    var head: seq<byte> := [counter / 0x100_0000 % 128, counter / 0x1_0000 % 256, counter / 0x100 % 256, counter % 256];
    assert head == m[..4];
    assert head + salt == m;
    assert m[..|n|] == n;
  }

  lemma CounterOctets(a: byte, b: byte, c: byte)
    ensures var n := a as int * 0x1_0000 + b as int * 0x100 + c;
            n / 0x100_0000 % 128 == 0 && n / 0x1_0000 % 256 == a && n / 0x100 % 256 == b && n % 256 == c
  {
  }

  /** A UDP packet with the given octets behind its ports. */
  function Carrier(plain: seq<byte>): (pkt: seq<byte>)
    ensures |pkt| == 38 + |plain|
  {
    seq(38, i => if i == 12 then 8 else if i == 14 then 0x45 else if i == 23 then 17 else 0) + plain
  }

  lemma CarrierShape(plain: seq<byte>)
    requires |plain| >= 4
    ensures var pkt := Carrier(plain);
            && Ipv4Offset(pkt) == Some(14) && TransportAt(pkt, 14) && Ihl(pkt, 14) == 20 && pkt[38..] == plain
            && Parsed(pkt) && TransportHdrSize(pkt[34..], 17).Some? && pkt[23] == 17
  {
  }

  /** Whatever ciphertext is wanted, some packet encrypts to it. */
  lemma AnyTail(aes: Aes, p: Params, ctx: Ctx, t: seq<byte>) returns (counter: u32, salt: Salt, pkt: seq<byte>)
    requires p.Valid() && ctx.initialized && |t| >= p.nonceSize + 6
    requires t[0] == 0 && t[p.nonceSize] == p.policyId && t[p.nonceSize + 1] == TunnelMagic
    ensures Parsed(pkt) && EncryptResult(aes, p, ctx, counter, salt, pkt).Rewritten?
    ensures var w := EncryptResult(aes, p, ctx, counter, salt, pkt).pkt;
            && TunnelAt(w) == Some(38) && 38 + |t| <= |w| && w[38..38 + |t|] == t
  {
    hide Nonce;
    hide Stream;
    hide WirePacket;
    hide TunnelAt;
    hide Carrier;
    var ns := p.nonceSize;
    counter, salt := AnyNonce(t[..ns]);
    var nonce, body := t[..ns], t[ns + 2..];
    assert Nonce(counter, salt, ns) == nonce;
    var plain := Stream(aes, p, ctx.current, nonce, body);
    pkt := Carrier(plain);
    CarrierShape(plain);
    StreamTwice(aes, p, ctx.current, nonce, body);
    WireMarks(aes, p, ctx.current, nonce, pkt, 14);
    WireTail(aes, p, ctx.current, nonce, pkt, 14);
    TailOfPlain(aes, p, ctx.current, nonce, plain, body);
    var w := WirePacket(aes, p, ctx.current, nonce, pkt, 14);
    assert t == nonce + [p.policyId, TunnelMagic] + body;
    assert w[38..38 + |t|] == w[38..][..|t|];
  }

  lemma TailOfPlain(aes: Aes, p: Params, key: Key, nonce: seq<byte>, plain: seq<byte>, body: seq<byte>)
    requires |nonce| <= IvSize && Stream(aes, p, key, nonce, plain) == body
    ensures var front := nonce + [p.policyId, TunnelMagic] + body;
            |Tail(aes, p, key, nonce, plain)| >= |front| && Tail(aes, p, key, nonce, plain)[..|front|] == front
  {
    hide Stream;
  }

  /** Some packet of policy i is taken for one of an earlier policy that is not harmless. */
  lemma HarmfulHits(aes: Aes, markers: Params, ps: seq<Policy>, j: nat, i: nat, ctx: Ctx)
    returns (counter: u32, salt: Salt, pkt: seq<byte>)
    requires j < i < |ps| && IdsDistinct(ps) && !Harmless(ps, j, i) && ps[j].nonceSize <= 16
    requires ps[i].action == EncryptL4 && 1 <= ps[i].nonceSize <= 16 && ctx.initialized
    ensures Parsed(pkt) && EncryptResult(aes, ParamsOf(ps[i], markers), ctx, counter, salt, pkt).Rewritten?
    ensures var w := EncryptResult(aes, ParamsOf(ps[i], markers), ctx, counter, salt, pkt).pkt;
            Extract(ps, w) != Some((WireId(ps[i]), ps[i].nonceSize))
  {
    hide EncryptResult;
    hide TunnelAt;
    var ns, nj := ps[i].nonceSize, ps[j].nonceSize;
    var t := Wanted(ns, WireId(ps[i]), nj, WireId(ps[j]));
    assert t[nj] == WireId(ps[j]) && t[nj + 1] == TunnelMagic;
    counter, salt, pkt := AnyTail(aes, ParamsOf(ps[i], markers), ctx, t);
    var w := EncryptResult(aes, ParamsOf(ps[i], markers), ctx, counter, salt, pkt).pkt;
    assert w[38..38 + |t|][nj] == w[38 + nj] && w[38..38 + |t|][nj + 1] == w[38 + nj + 1];
    assert Hit(ps, j, w, 38);
    EarlierHitWins(ps, i, w);
  }

  /** Every packet that layer 4 encrypts under policy i is recognised as its own. */
  ghost predicate AlwaysRecognised(aes: Aes, markers: Params, ps: seq<Policy>, i: nat, ctx: Ctx)
    requires i < |ps| && 1 <= ps[i].nonceSize <= 16
  {
    forall counter: u32, salt: Salt, pkt: seq<byte> ::
      Parsed(pkt) && EncryptResult(aes, ParamsOf(ps[i], markers), ctx, counter, salt, pkt).Rewritten? ==>
        Extract(ps, EncryptResult(aes, ParamsOf(ps[i], markers), ctx, counter, salt, pkt).pkt)
        == Some((WireId(ps[i]), ps[i].nonceSize))
  }

  /**
   * With distinct wire ids, all packets of policy i - any counter, salt and contents - are recognised
   * as its own if and only if every policy before it is harmless to them.
   */
  lemma RecognisedExactly(aes: Aes, markers: Params, ps: seq<Policy>, i: nat, ctx: Ctx)
    requires IdsDistinct(ps) && NoncesFit(ps) && i < |ps| && ctx.initialized
    requires ps[i].action == EncryptL4 && 1 <= ps[i].nonceSize <= 16
    ensures AlwaysRecognised(aes, markers, ps, i, ctx) <==> Separable(ps, i)
  {
    hide EncryptResult;
    hide Extract;
    hide IdsDistinct;
    hide Harmless;
    hide Hit;
    hide TunnelAt;
    var p := ParamsOf(ps[i], markers);
    if Separable(ps, i) {
      forall counter: u32, salt: Salt, pkt: seq<byte>
        | Parsed(pkt) && EncryptResult(aes, p, ctx, counter, salt, pkt).Rewritten?
        ensures Extract(ps, EncryptResult(aes, p, ctx, counter, salt, pkt).pkt)
                == Some((WireId(ps[i]), ps[i].nonceSize))
      {
        var w := EncryptResult(aes, p, ctx, counter, salt, pkt).pkt;
        OwnHit(aes, markers, ps, i, ctx, counter, salt, pkt);
        SeparableMisses(ps, i, w, TunnelAt(w).value);
        OwnExtract(ps, i, w);
      }
    } else {
      var j :| 0 <= j < i && !Harmless(ps, j, i);
      HarmfulIsL4(ps, j, i);
      var counter, salt, pkt := HarmfulHits(aes, markers, ps, j, i, ctx);
    }
  }

  lemma HarmfulIsL4(ps: seq<Policy>, j: nat, i: nat)
    requires j < |ps| && i < |ps| && !Harmless(ps, j, i) && NoncesFit(ps)
    ensures ps[j].nonceSize <= 16
  {
  }

  lemma SeparableMisses(ps: seq<Policy>, i: nat, w: seq<byte>, at: nat)
    requires i < |ps| && IdsDistinct(ps) && Separable(ps, i) && Hit(ps, i, w, at)
    ensures NoEarlierHit(ps, i, w, at)
  {
    hide Hit;
    hide Harmless;
    hide IdsDistinct;
    forall j | 0 <= j < i
      ensures !Hit(ps, j, w, at)
    {
      HarmlessMisses(ps, j, i, w, at);
    }
  }

  lemma OwnExtract(ps: seq<Policy>, i: nat, w: seq<byte>)
    requires i < |ps| && TunnelAt(w).Some? && Hit(ps, i, w, TunnelAt(w).value)
    requires NoEarlierHit(ps, i, w, TunnelAt(w).value)
    ensures Extract(ps, w) == Some((WireId(ps[i]), ps[i].nonceSize))
  {
    hide Hit;
    hide TunnelAt;
    FirstIsHit(ps, i, w, TunnelAt(w).value);
  }

  /** And then a runtime holding the configuration restores each of them, as DispatchRoundTrip says. */
  lemma SeparableRoundTrip(aes: Aes, markers: Params, rt: Runtime, i: nat, counter: u32, salt: Salt, pkt: seq<byte>)
    requires rt.FreshFor(rt.active) && IdsDistinct(rt.active) && i < |rt.active| && Encrypts(rt.active[i])
    requires rt.active[i].action == EncryptL4 && 1 <= rt.active[i].nonceSize <= 16 && Separable(rt.active, i)
    requires Parsed(pkt)
    requires EncryptResult(aes, ParamsOf(rt.active[i], markers), rt.ctx[i], counter, salt, pkt).Rewritten?
    ensures var cp := rt.active[i];
            var w := EncryptResult(aes, ParamsOf(cp, markers), rt.ctx[i], counter, salt, pkt).pkt;
            && Extract(rt.active, w) == Some((WireId(cp), cp.nonceSize))
            && ServedResult(aes, markers, rt, rt.active, WireId(cp), cp.nonceSize, w)
               == Rewritten(Canonical(pkt, Ipv4Offset(pkt).value))
  {
    hide EncryptResult;
    hide Extract;
    hide IdsDistinct;
    hide Separable;
    hide Hit;
    hide NoEarlierHit;
    hide TunnelAt;
    hide ServedResult;
    hide Serving;
    hide PatchIpv4;
    hide UniformNonces;
    hide IsCanonical;
    hide Encrypts;
    hide Ipv4Offset;
    var w := EncryptResult(aes, ParamsOf(rt.active[i], markers), rt.ctx[i], counter, salt, pkt).pkt;
    OwnHit(aes, markers, rt.active, i, rt.ctx[i], counter, salt, pkt);
    SeparableMisses(rt.active, i, w, TunnelAt(w).value);
    DispatchRoundTrip(aes, markers, rt, i, counter, salt, pkt);
  }
}
