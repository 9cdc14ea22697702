/**
 * What the grace period is worth (crypto_decrypt_packet_auto_by_action in
 * src/crypto/crypto_dispatch.c): after a new start a packet sealed under the previous policy is first
 * opened in place under the current one, and what that leaves is handed to the previous one.
 */
module Grace {
  import opened Bytes
  import opened Checksum
  import opened ConfigMerge
  import opened CryptoRuntime
  import opened Dispatch
  import opened Layer4
  import opened PacketCrypto
  import opened Policy

  /** As packet_crypto_init leaves a context: ready, with one key in all three places. */
  predicate OneKey(ctx: Ctx) {
    ctx.initialized && ctx.prev == ctx.current && ctx.next == ctx.current
  }

  // ---- bodies ----

  lemma {:induction false} XorBitsIdle(a: nat, b: nat, n: nat)
    requires a < Pow2(n) && b < Pow2(n) && XorBits(a, b, n) == a
    ensures b == 0
  {
    if n > 0 {
      SameParity(a, a, b);
      XorBitsIdle(Half(a), Half(b), n - 1);
    }
  }

  lemma XorIdle(a: byte, b: byte)
    ensures Xor(a, b) == a <==> b == 0
  {
    hide XorBits;
    hide Pow2;
    Pow2Of8();
    if Xor(a, b) == a {
      XorBitsIdle(a, b, 8);
    }
    if b == 0 {
      XorZero(a, 8);
    }
  }

  lemma {:induction false} XorZero(a: nat, n: nat)
    requires a < Pow2(n)
    ensures XorBits(a, 0, n) == a
  {
    if n > 0 {
      XorZero(Half(a), n - 1);
    }
  }

  /** The keystream of this key leaves n octets as they are. */
  predicate Silent(aes: Aes, p: Params, key: Key, nonce: seq<byte>, n: nat)
    requires |nonce| <= IvSize
  {
    forall i :: 0 <= i < n ==> Keystream(aes, p, key, nonce, i) == 0
  }

  lemma SilentExactly(aes: Aes, p: Params, key: Key, nonce: seq<byte>, c: seq<byte>)
    requires |nonce| <= IvSize
    ensures Stream(aes, p, key, nonce, c) == c <==> Silent(aes, p, key, nonce, |c|)
  {
    hide Xor;
    forall i | 0 <= i < |c|
      ensures Stream(aes, p, key, nonce, c)[i] == c[i] <==> Keystream(aes, p, key, nonce, i) == 0
    {
      XorIdle(c[i], Keystream(aes, p, key, nonce, i));
    }
    if Stream(aes, p, key, nonce, c) == c {
      forall i | 0 <= i < |c|
        ensures Keystream(aes, p, key, nonce, i) == 0
      {
        assert Stream(aes, p, key, nonce, c)[i] == c[i];
      }
    }
  }

  /** With one key the second try only differs on a ciphertext that the backup does not hold. */
  lemma OpenOneKey(aes: Aes, p: Params, ctx: Ctx, nonce: seq<byte>, c: seq<byte>, tag: seq<byte>)
    requires |nonce| <= IvSize && OneKey(ctx) && |tag| == p.TagLen()
    ensures var out := Stream(aes, p, ctx.current, nonce, c);
            && Open(aes, p, ctx, nonce, c + tag)
               == (if Accepts(aes, p, ctx.current, nonce, tag, c) then Some(out)
                   else if |c| > BackupSize && Accepts(aes, p, ctx.current, nonce, tag, out) then Some(c)
                   else None)
            && OpenLeft(aes, p, ctx, nonce, c + tag) == out + tag
  {
    hide Stream;
    hide Accepts;
    var out := Stream(aes, p, ctx.current, nonce, c);
    assert (c + tag)[..|c|] == c && (c + tag)[|c|..] == tag;
    StreamTwice(aes, p, ctx.current, nonce, c);
    assert forall k :: 0 <= k < 3 ==> ctx.KeyTried(k) == ctx.current;
    LeftThree(aes, p, ctx, nonce, c);
    OpenThree(aes, p, ctx, nonce, tag, c);
  }

  lemma LeftThree(aes: Aes, p: Params, ctx: Ctx, nonce: seq<byte>, c: seq<byte>)
    requires |nonce| <= IvSize && OneKey(ctx)
    ensures LeftFrom(aes, p, ctx, nonce, c, c, 0) == Stream(aes, p, ctx.current, nonce, c)
  {
    hide Stream;
    var out := Stream(aes, p, ctx.current, nonce, c);
    StreamTwice(aes, p, ctx.current, nonce, c);
    var second := if |c| <= BackupSize then out else c;
    assert LeftFrom(aes, p, ctx, nonce, c, out, 3) == out;
    assert LeftFrom(aes, p, ctx, nonce, c, second, 2) == out;
    assert LeftFrom(aes, p, ctx, nonce, c, out, 1) == out;
  }

  lemma OpenThree(aes: Aes, p: Params, ctx: Ctx, nonce: seq<byte>, tag: seq<byte>, c: seq<byte>)
    requires |nonce| <= IvSize && OneKey(ctx)
    ensures var out := Stream(aes, p, ctx.current, nonce, c);
            OpenFrom(aes, p, ctx, nonce, tag, None, c, c, 0)
            == (if Accepts(aes, p, ctx.current, nonce, tag, c) then Some(out)
                else if |c| > BackupSize && Accepts(aes, p, ctx.current, nonce, tag, out) then Some(c)
                else None)
  {
    hide Stream;
    var out := Stream(aes, p, ctx.current, nonce, c);
    StreamTwice(aes, p, ctx.current, nonce, c);
    if !Accepts(aes, p, ctx.current, nonce, tag, c) {
      if |c| <= BackupSize {
        assert OpenFrom(aes, p, ctx, nonce, tag, None, c, out, 2) == None;
        assert OpenFrom(aes, p, ctx, nonce, tag, None, c, out, 1) == None;
      } else if !Accepts(aes, p, ctx.current, nonce, tag, out) {
        assert OpenFrom(aes, p, ctx, nonce, tag, None, c, c, 2) == None;
        assert OpenFrom(aes, p, ctx, nonce, tag, None, c, out, 1) == None;
      }
    }
  }

  // ---- the second runtime ----

  /**
   * What one key sealed survives being tried under another: the body is too short for a tag, the
   * other key's stream is silent over it, or it outgrows the backup and the other key's stream gives
   * the plaintext, which the own tag tells from the ciphertext.
   */
  predicate Survives(aes: Aes, p1: Params, k1: Key, p2: Params, k2: Key, nonce: seq<byte>, plain: seq<byte>)
    requires |nonce| <= IvSize
  {
    var body := Seal(aes, p1, k1, nonce, plain);
    || |body| < p2.TagLen()
    || Silent(aes, p2, k2, nonce, |body| - p2.TagLen())
    || (p1.Gcm() && |plain| > BackupSize && Stream(aes, p2, k2, nonce, Stream(aes, p1, k1, nonce, plain)) == plain
        && !Accepts(aes, p1, k1, nonce, body[|plain|..], plain))
  }

  /** So a packet of common size, both policies authenticating, is lost once the other stream starts. */
  lemma SpoiledIsLost(aes: Aes, p1: Params, k1: Key, p2: Params, k2: Key, nonce: seq<byte>, plain: seq<byte>)
    requires |nonce| <= IvSize && p1.Gcm() && p2.Gcm() && 0 < |plain| <= BackupSize
    requires Keystream(aes, p2, k2, nonce, 0) != 0
    ensures !Survives(aes, p1, k1, p2, k2, nonce, plain)
  {
    hide Stream;
  }

  /** An authenticated body whose ciphertext is replaced by d opens to its plaintext exactly then. */
  lemma ReopensExactly(aes: Aes, p: Params, ctx: Ctx, nonce: seq<byte>, plain: seq<byte>, d: seq<byte>)
    requires |nonce| <= IvSize && OneKey(ctx) && |d| == |plain| && p.Gcm()
    ensures var c := Stream(aes, p, ctx.current, nonce, plain);
            var tag := aes.tag(p.aesBits, ctx.current, nonce, c);
            Open(aes, p, ctx, nonce, d + tag) == Some(plain)
            <==> d == c || (|plain| > BackupSize && d == plain && !Accepts(aes, p, ctx.current, nonce, tag, plain))
  {
    hide Stream;
    var c := Stream(aes, p, ctx.current, nonce, plain);
    var tag := aes.tag(p.aesBits, ctx.current, nonce, c);
    StreamTwice(aes, p, ctx.current, nonce, plain);
    StreamTwice(aes, p, ctx.current, nonce, d);
    OpenOneKey(aes, p, ctx, nonce, d, tag);
    hide OpenFor;
  }

  lemma ReopensPlain(aes: Aes, p: Params, ctx: Ctx, nonce: seq<byte>, plain: seq<byte>, d: seq<byte>)
    requires |nonce| <= IvSize && OneKey(ctx) && !p.Gcm()
    ensures Open(aes, p, ctx, nonce, d) == Some(plain) <==> d == Stream(aes, p, ctx.current, nonce, plain)
  {
    hide Stream;
    StreamTwice(aes, p, ctx.current, nonce, plain);
    StreamTwice(aes, p, ctx.current, nonce, d);
    OpenOneKey(aes, p, ctx, nonce, d, []);
    assert d + [] == d;
    hide OpenFor;
  }

  /** Refused under the second policy, a body opens under its own again exactly if it survived. */
  lemma ReopensIfSurvived(aes: Aes, p1: Params, c1: Ctx, p2: Params, c2: Ctx, nonce: seq<byte>, plain: seq<byte>)
    requires |nonce| <= IvSize && OneKey(c1) && OneKey(c2)
    requires Open(aes, p2, c2, nonce, Seal(aes, p1, c1.current, nonce, plain)).None?
    ensures Open(aes, p1, c1, nonce, OpenLeft(aes, p2, c2, nonce, Seal(aes, p1, c1.current, nonce, plain)))
            == Some(plain)
            <==> Survives(aes, p1, c1.current, p2, c2.current, nonce, plain)
  {
    hide Stream;
    hide OpenFor;
    hide Silent;
    hide Accepts;
    var c := Stream(aes, p1, c1.current, nonce, plain);
    var body := Seal(aes, p1, c1.current, nonce, plain);
    if |body| < p2.TagLen() {
      assert OpenLeft(aes, p2, c2, nonce, body) == body;
      OpenSealed(aes, p1, c1, nonce, plain);
    } else {
      var n := |body| - p2.TagLen();
      var d := Stream(aes, p2, c2.current, nonce, body[..n]);
      assert body == body[..n] + body[n..];
      OpenOneKey(aes, p2, c2, nonce, body[..n], body[n..]);
      hide OpenLeft;
      assert p2.Gcm() by {
        AcceptsWithoutTag(aes, p2, c2.current, nonce, body[n..], body[..n]);
      }
      SilentExactly(aes, p2, c2.current, nonce, body[..n]);
      if p1.Gcm() {
        assert body[..n] == c && body[|plain|..] == body[n..];
        ReopensExactly(aes, p1, c1, nonce, plain, d);
      } else {
        assert d + body[n..] == body <==> d == body[..n] by {
          assert (d + body[n..])[..n] == d;
        }
        ReopensPlain(aes, p1, c1, nonce, plain, d + body[n..]);
      }
    }
  }

  lemma AcceptsWithoutTag(aes: Aes, p: Params, key: Key, nonce: seq<byte>, tag: seq<byte>, work: seq<byte>)
    ensures !p.Gcm() ==> Accepts(aes, p, key, nonce, tag, work)
  {
  }

  // ---- packets ----

  /** A packet in wire form is a front, the tunnel header and the sealed remainder. */
  lemma WireLayout(aes: Aes, p: Params, key: Key, nonce: seq<byte>, pkt: seq<byte>, l3: nat)
    returns (front: seq<byte>)
    requires p.Valid() && |nonce| == p.nonceSize
    requires Ipv4Offset(pkt) == Some(l3) && TransportAt(pkt, l3) && l3 + Ihl(pkt, l3) + PortLen <= |pkt|
    ensures Front(front, l3)
    ensures var at := l3 + Ihl(pkt, l3) + PortLen;
            && WirePacket(aes, p, key, nonce, pkt, l3)
               == front + TunnelHdr(p, nonce, TunnelMagic) + Seal(aes, p, key, nonce, pkt[at..])
            && Rejoin(front, l3, pkt[at..]) == Canonical(pkt, l3)
  {
    hide Seal;
    hide PatchIpv4;
    hide Ipv4Offset;
    hide Rejoin;
    hide Canonical;
    hide TunnelHdr;
    var at := l3 + Ihl(pkt, l3) + PortLen;
    var total := (|pkt| - l3 + |nonce| + 2 + p.TagLen()) % 0x1_0000;
    RejoinOwnHalves(pkt, l3, at);
    RejoinPatched(pkt[..at], l3, total, pkt[at..]);
    front := PatchIpv4(pkt[..at], l3, Ihl(pkt, l3), total);
  }

  /** Only one plaintext rejoins to what this one does. */
  lemma RejoinSeparates(front: seq<byte>, l3: nat, a: seq<byte>, b: seq<byte>)
    requires Front(front, l3)
    ensures Rejoin(front, l3, a) == Rejoin(front, l3, b) <==> a == b
  {
    hide Rejoin;
    RejoinEnds(front, l3, a);
    RejoinEnds(front, l3, b);
  }

  lemma RejoinEnds(front: seq<byte>, l3: nat, plain: seq<byte>)
    requires Front(front, l3)
    ensures Rejoin(front, l3, plain)[|front|..] == plain
  {
    hide PatchIpv4;
  }

  /** Decryption of such a packet under any policy with its nonce size. */
  lemma DecryptTaken(aes: Aes, p: Params, p1: Params, ctx: Ctx, front: seq<byte>, l3: nat, nonce: seq<byte>,
                     body: seq<byte>)
    requires p.Valid() && ctx.initialized && |nonce| == p.nonceSize == p1.nonceSize && nonce[0] < 128
    requires Front(front, l3)
    ensures var w := front + TunnelHdr(p1, nonce, TunnelMagic) + body;
            && DecryptResult(aes, p, ctx, w)
               == (match Open(aes, p, ctx, nonce, body)
                   case None => Failed
                   case Some(plain) => Rewritten(Rejoin(front, l3, plain)))
            && Spoiled(aes, p, ctx, w) == front + TunnelHdr(p1, nonce, TunnelMagic) + OpenLeft(aes, p, ctx, nonce, body)
  {
    hide Open;
    hide OpenLeft;
    hide Split;
    hide Rejoin;
    TunnelHdrParts(p1, nonce, TunnelMagic);
    hide TunnelHdr;
    var hdr := TunnelHdr(p1, nonce, TunnelMagic);
    SplitLayout(p, TunnelMagic, front, l3, nonce, hdr, body);
    var w := front + hdr + body;
    assert w[..|w| - |body|] == front + hdr;
  }

  /**
   * A packet sealed under (p1, c1) and first tried under (p2, c2). Refused there, it comes out
   * restored from the second attempt exactly if its body survived the first. Without authentication
   * it is never refused, and comes out restored exactly if it was sealed without authentication
   * under the same stream.
   */
  lemma SecondAttempt(aes: Aes, p1: Params, c1: Ctx, p2: Params, c2: Ctx, nonce: seq<byte>, pkt: seq<byte>, l3: nat)
    requires p1.Valid() && p2.Valid() && |nonce| == p1.nonceSize == p2.nonceSize && nonce[0] < 128
    requires OneKey(c1) && OneKey(c2)
    requires Ipv4Offset(pkt) == Some(l3) && TransportAt(pkt, l3) && l3 + Ihl(pkt, l3) + PortLen <= |pkt|
    ensures var w := WirePacket(aes, p1, c1.current, nonce, pkt, l3);
            var plain := pkt[l3 + Ihl(pkt, l3) + PortLen..];
            var o := DecryptResult(aes, p2, c2, w);
            && (o.Failed? || o.Rewritten?)
            && (o.Failed? ==>
                 (DecryptResult(aes, p1, c1, Spoiled(aes, p2, c2, w)) == Rewritten(Canonical(pkt, l3))
                  <==> Survives(aes, p1, c1.current, p2, c2.current, nonce, plain)))
            && (!p2.Gcm() ==>
                 && o.Rewritten?
                 && (o.pkt == Canonical(pkt, l3) <==>
                     && !p1.Gcm()
                     && Stream(aes, p2, c2.current, nonce, plain) == Stream(aes, p1, c1.current, nonce, plain)))
  {
    hide DecryptResult;
    hide Spoiled;
    hide Open;
    hide OpenLeft;
    hide Seal;
    hide Split;
    hide Rejoin;
    hide HeadersOk;
    hide Canonical;
    hide Survives;
    hide WirePacket;
    hide Ipv4Offset;
    hide Stream;
    hide TunnelHdr;
    var at := l3 + Ihl(pkt, l3) + PortLen;
    var plain := pkt[at..];
    var body := Seal(aes, p1, c1.current, nonce, plain);
    var front := WireLayout(aes, p1, c1.current, nonce, pkt, l3);
    var first := Open(aes, p2, c2, nonce, body);
    DecryptTaken(aes, p2, p1, c2, front, l3, nonce, body);
    if first.None? {
      var left := OpenLeft(aes, p2, c2, nonce, body);
      var second := Open(aes, p1, c1, nonce, left);
      DecryptTaken(aes, p1, p1, c1, front, l3, nonce, left);
      ReopensIfSurvived(aes, p1, c1, p2, c2, nonce, plain);
      if second.Some? {
        RejoinSeparates(front, l3, second.value, plain);
      }
    } else {
      RejoinSeparates(front, l3, first.value, plain);
    }
    if !p2.Gcm() {
      CtrTakesAll(aes, p1, c1.current, p2, c2, nonce, plain);
    }
  }

  /** CTR opens everything, to the plaintext exactly under the same stream and without a tag. */
  lemma CtrTakesAll(aes: Aes, p1: Params, k1: Key, p2: Params, c2: Ctx, nonce: seq<byte>, plain: seq<byte>)
    requires |nonce| <= IvSize && OneKey(c2) && !p2.Gcm()
    ensures var r := Open(aes, p2, c2, nonce, Seal(aes, p1, k1, nonce, plain));
            && r.Some?
            && (r.value == plain <==>
                !p1.Gcm() && Stream(aes, p2, c2.current, nonce, plain) == Stream(aes, p1, k1, nonce, plain))
  {
    hide Stream;
    var body := Seal(aes, p1, k1, nonce, plain);
    assert body + [] == body;
    OpenOneKey(aes, p2, c2, nonce, body, []);
    AcceptsWithoutTag(aes, p2, c2.current, nonce, [], body);
    hide OpenFor;
    StreamTwice(aes, p2, c2.current, nonce, body);
    StreamTwice(aes, p2, c2.current, nonce, plain);
  }

  // ---- the two runtimes ----

  /** Which policy a runtime built for distinct ids serves: the one with the id, if it has a key. */
  lemma ServingExactly(rt: Runtime, i: nat)
    requires rt.FreshFor(rt.active) && IdsDistinct(rt.active) && i < |rt.active|
    requires rt.active[i].action == EncryptL4 && rt.active[i].nonceSize > 0
    ensures var cp := rt.active[i];
            && Serving(rt, rt.active, WireId(cp), cp.nonceSize) == (if Encrypts(cp) then Some(i) else None)
            && (Encrypts(cp) ==> rt.ctx[i] == InitCtx(rt.hmac, cp.aesBits, cp.key) && OneKey(rt.ctx[i]))
  {
    hide InitCtx;
    hide Slot;
    hide KeyNonZero;
    var cp := rt.active[i];
    if Encrypts(cp) {
      SlotIsHome(rt.active, i);
      InitHasOneKey(rt.hmac, cp.aesBits, cp.key);
    } else {
      SlotIsFirst(rt.active, |rt.active|, EncryptL4, WireId(cp));
      OnlyOneNamed(rt.active, i, EncryptL4);
    }
  }

  lemma InitHasOneKey(hmac: Hmac, aesBits: int, key: Key)
    ensures OneKey(InitCtx(hmac, aesBits, key))
  {
  }

  lemma OnlyOneNamed(ps: seq<Policy>, i: nat, action: int)
    requires IdsDistinct(ps) && i < |ps| && ps[i].action == action
    ensures forall k: nat :: k < |ps| && Named(ps, k, action, WireId(ps[i])) ==> k == i
    ensures FirstNamed(ps, 0, action, WireId(ps[i])) == i
  {
    forall k: nat | k < |ps| && Named(ps, k, action, WireId(ps[i]))
      ensures k == i
    {
      assert ps[k].id == ps[i].id;
    }
    assert Named(ps, i, action, WireId(ps[i]));
  }

  /**
   * Policy i took the id and nonce size of policy j over with the new start. In the grace period a
   * packet sealed before it is restored by way of the previous runtime always if policy i has no
   * key; exactly if it survives the first attempt, where that is refused; and never where policy i
   * does not authenticate, as the first attempt then takes it: that one restores it exactly if
   * policy j did not authenticate either and the streams agree.
   */
  lemma GraceRestoresExactly(aes: Aes, markers: Params, rt: Runtime, i: nat, prev: Runtime, j: nat, counter: u32,
                             salt: Salt, pkt: seq<byte>)
    requires rt.FreshFor(rt.active) && IdsDistinct(rt.active) && i < |rt.active| && rt.active[i].action == EncryptL4
    requires prev.FreshFor(prev.active) && IdsDistinct(prev.active) && j < |prev.active| && Encrypts(prev.active[j])
    requires prev.active[j].action == EncryptL4 && WireId(rt.active[i]) == WireId(prev.active[j])
    requires 1 <= rt.active[i].nonceSize == prev.active[j].nonceSize <= 16
    requires Parsed(pkt)
    ensures var p1, p2 := ParamsOf(prev.active[j], markers), ParamsOf(rt.active[i], markers);
            var c1, c2 := prev.ctx[j], rt.ctx[i];
            EncryptResult(aes, p1, c1, counter, salt, pkt).Rewritten? ==>
            var w := EncryptResult(aes, p1, c1, counter, salt, pkt).pkt;
            var l3 := Ipv4Offset(pkt).value;
            var plain := pkt[l3 + Ihl(pkt, l3) + PortLen..];
            var nonce := Nonce(counter, salt, p1.nonceSize);
            var o := DecryptResult(aes, p2, c2, w);
            var r := AutoResult(aes, markers, rt, prev, true, p1.policyId, p1.nonceSize, w);
            && TunnelAt(w).Some?
            && (NoEarlierHit(rt.active, i, w, TunnelAt(w).value) ==>
                 Extract(rt.active, w) == Some((p1.policyId, p1.nonceSize)))
            && (!Encrypts(rt.active[i]) ==> r == Some(Canonical(pkt, l3)))
            && (Encrypts(rt.active[i]) && !o.Failed? ==> o.Rewritten? && r == Some(o.pkt))
            && (Encrypts(rt.active[i]) && o.Failed? ==>
                 (r == Some(Canonical(pkt, l3)) <==>
                  Survives(aes, p1, c1.current, p2, c2.current, nonce, plain)))
            && (Encrypts(rt.active[i]) && !p2.Gcm() ==>
                 (r == Some(Canonical(pkt, l3)) <==>
                  !p1.Gcm() && Stream(aes, p2, c2.current, nonce, plain) == Stream(aes, p1, c1.current, nonce, plain)))
  {
    hide EncryptResult;
    hide DecryptResult;
    hide Spoiled;
    hide Canonical;
    hide Survives;
    hide Stream;
    hide Nonce;
    hide TunnelAt;
    hide Extract;
    hide Serving;
    hide Hit;
    hide NoEarlierHit;
    hide FirstHit;
    hide Ipv4Offset;
    hide IdsDistinct;
    hide Encrypts;
    hide OneKey;
    var p1, p2 := ParamsOf(prev.active[j], markers), ParamsOf(rt.active[i], markers);
    var c1, c2 := prev.ctx[j], rt.ctx[i];
    ServingExactly(prev, j);
    ServingExactly(rt, i);
    if EncryptResult(aes, p1, c1, counter, salt, pkt).Rewritten? {
      var w := EncryptResult(aes, p1, c1, counter, salt, pkt).pkt;
      Sealed(aes, p1, c1, counter, salt, pkt);
      var l3 := Ipv4Offset(pkt).value;
      var nonce := Nonce(counter, salt, p1.nonceSize);
      RoundTrip(aes, p1, c1, counter, salt, pkt);
      OwnHit(aes, markers, prev.active, j, c1, counter, salt, pkt);
      SameHit(prev.active, j, rt.active, i, w, TunnelAt(w).value);
      DecryptShortens(aes, p1, c1, w);
      DecryptShortens(aes, p2, c2, w);
      DecryptShortens(aes, p1, c1, Spoiled(aes, p2, c2, w));
      if Encrypts(rt.active[i]) {
        SecondAttempt(aes, p1, c1, p2, c2, nonce, pkt, l3);
      }
    }
  }

  /** What an encryption that rewrites its packet had in front of it. */
  lemma Sealed(aes: Aes, p: Params, ctx: Ctx, counter: u32, salt: Salt, pkt: seq<byte>)
    requires p.Valid() && Parsed(pkt) && EncryptResult(aes, p, ctx, counter, salt, pkt).Rewritten?
    ensures Ipv4Offset(pkt).Some?
    ensures var l3 := Ipv4Offset(pkt).value;
            && TransportAt(pkt, l3) && l3 + Ihl(pkt, l3) + PortLen <= |pkt|
            && EncryptResult(aes, p, ctx, counter, salt, pkt).pkt
               == WirePacket(aes, p, ctx.current, Nonce(counter, salt, p.nonceSize), pkt, l3)
            && Nonce(counter, salt, p.nonceSize)[0] < 128
  {
    hide WirePacket;
    hide Nonce;
    hide Ipv4Offset;
  }

  lemma SameHit(ps: seq<Policy>, j: nat, qs: seq<Policy>, i: nat, w: seq<byte>, at: nat)
    requires Hit(ps, j, w, at) && TunnelAt(w) == Some(at) && i < |qs| && qs[i].action == EncryptL4
    requires WireId(qs[i]) == WireId(ps[j]) && qs[i].nonceSize == ps[j].nonceSize
    ensures NoEarlierHit(qs, i, w, at) ==> Extract(qs, w) == Some((WireId(ps[j]), ps[j].nonceSize))
  {
    hide TunnelAt;
    if NoEarlierHit(qs, i, w, at) {
      FirstIsHit(qs, i, w, at);
    }
  }

  /** The packets of a policy that is gone after it are not even tried in the grace period. */
  lemma RemovedIsPassedOn(aes: Aes, markers: Params, ps: seq<Policy>, ctx: Ctx, cp: Policy, counter: u32, salt: Salt,
                          pkt: seq<byte>)
    requires cp.action == EncryptL4 && 1 <= cp.nonceSize <= 16 && Parsed(pkt) && UniformNonces(ps, cp.nonceSize)
    requires forall i :: 0 <= i < |ps| && ps[i].action == EncryptL4 ==> WireId(ps[i]) != WireId(cp)
    requires EncryptResult(aes, ParamsOf(cp, markers), ctx, counter, salt, pkt).Rewritten?
    ensures Extract(ps, EncryptResult(aes, ParamsOf(cp, markers), ctx, counter, salt, pkt).pkt) == None
  {
    hide EncryptResult;
    hide TunnelAt;
    var w := EncryptResult(aes, ParamsOf(cp, markers), ctx, counter, salt, pkt).pkt;
    OwnHit(aes, markers, [cp], 0, ctx, counter, salt, pkt);
    var at := TunnelAt(w).value;
    forall i: nat | i < |ps|
      ensures !Hit(ps, i, w, at)
    {
    }
  }
}
