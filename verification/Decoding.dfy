/**
 * What the decoders make of any packet, and which of the three keys opens a payload
 * (src/crypto/crypto_layer2.c, crypto_layer3.c, crypto_layer4.c).
 */
module Decoding {
  import opened Bytes
  import opened Checksum
  import opened Layer2
  import opened Layer3
  import opened Layer3Packet
  import opened Layer4
  import opened PacketCrypto
  import opened WireFormat

  // ---- keys ----

  /** The tag that a ciphertext would have under this key. */
  function TagUnder(aes: Aes, p: Params, key: Key, nonce: seq<byte>, c: seq<byte>): Tag {
    aes.tag(p.aesBits, key, nonce, c)
  }

  /**
   * An authenticated body of up to 2048 octets opens under the first of the current, the previous and
   * the next key whose tag it has, and under none without.
   */
  lemma FirstKeyOpens(aes: Aes, p: Params, ctx: Ctx, nonce: seq<byte>, c: seq<byte>, tag: seq<byte>)
    requires |nonce| <= 16 && p.mode == 1 && 0 < |c| <= 2048 && |tag| == 16
    ensures var r := Open(aes, p, ctx, nonce, c + tag);
            if TagUnder(aes, p, ctx.current, nonce, c) == tag then r == Some(Stream(aes, p, ctx.current, nonce, c))
            else if TagUnder(aes, p, ctx.prev, nonce, c) == tag then r == Some(Stream(aes, p, ctx.prev, nonce, c))
            else if TagUnder(aes, p, ctx.next, nonce, c) == tag then r == Some(Stream(aes, p, ctx.next, nonce, c))
            else r == None
  {
    hide Stream;
    assert (c + tag)[..|c|] == c && (c + tag)[|c|..] == tag;
    var a := Stream(aes, p, ctx.current, nonce, c);
    var b := Stream(aes, p, ctx.prev, nonce, c);
    OpenFromStep(aes, p, ctx, nonce, tag, c, c, 0);
    OpenFromStep(aes, p, ctx, nonce, tag, c, a, 1);
    OpenFromStep(aes, p, ctx, nonce, tag, c, b, 2);
  }

  lemma OpenFromStep(aes: Aes, p: Params, ctx: Ctx, nonce: seq<byte>, tag: seq<byte>, c: seq<byte>, work: seq<byte>,
                     k: nat)
    requires |nonce| <= 16 && p.mode == 1 && 0 < |c| <= 2048 && |work| == |c| && k < 3 && (k == 0 ==> work == c)
    ensures var key := if k == 0 then ctx.current else if k == 1 then ctx.prev else ctx.next;
            var out := Stream(aes, p, key, nonce, c);
            OpenFrom(aes, p, ctx, nonce, tag, None, c, work, k)
            == (if TagUnder(aes, p, key, nonce, c) == tag then Some(out)
                else if k == 2 then None
                else OpenFrom(aes, p, ctx, nonce, tag, None, c, out, k + 1))
  {
    hide Stream;
  }

  /** So what was sealed under any of the three opens, unless an earlier one happens to give its tag. */
  lemma AnyKeyOpens(aes: Aes, p: Params, ctx: Ctx, nonce: seq<byte>, plain: seq<byte>)
    requires |nonce| <= 16 && p.mode == 1 && 0 < |plain| <= 2048
    ensures var body := Seal(aes, p, ctx.prev, nonce, plain);
            var c, tag := body[..|plain|], body[|plain|..];
            TagUnder(aes, p, ctx.current, nonce, c) != tag ==> Open(aes, p, ctx, nonce, body) == Some(plain)
    ensures var body := Seal(aes, p, ctx.next, nonce, plain);
            var c, tag := body[..|plain|], body[|plain|..];
            TagUnder(aes, p, ctx.current, nonce, c) != tag && TagUnder(aes, p, ctx.prev, nonce, c) != tag ==>
              Open(aes, p, ctx, nonce, body) == Some(plain)
  {
    OpensUnder(aes, p, ctx, ctx.prev, nonce, plain);
    OpensUnder(aes, p, ctx, ctx.next, nonce, plain);
  }

  lemma OpensUnder(aes: Aes, p: Params, ctx: Ctx, key: Key, nonce: seq<byte>, plain: seq<byte>)
    requires |nonce| <= 16 && p.mode == 1 && 0 < |plain| <= 2048
    ensures var body := Seal(aes, p, key, nonce, plain);
            var c, tag := body[..|plain|], body[|plain|..];
            && Stream(aes, p, key, nonce, c) == plain && TagUnder(aes, p, key, nonce, c) == tag
            && (TagUnder(aes, p, ctx.current, nonce, c) != tag ==>
                 && (key == ctx.prev ==> Open(aes, p, ctx, nonce, body) == Some(plain))
                 && (key == ctx.next && TagUnder(aes, p, ctx.prev, nonce, c) != tag ==>
                      Open(aes, p, ctx, nonce, body) == Some(plain)))
  {
    hide Stream;
    hide Open;
    var body := Seal(aes, p, key, nonce, plain);
    var c, tag := body[..|plain|], body[|plain|..];
    assert body == c + tag;
    assert c == Stream(aes, p, key, nonce, plain);
    StreamTwice(aes, p, key, nonce, plain);
    FirstKeyOpens(aes, p, ctx, nonce, c, tag);
  }

  /** Beyond 2048 octets there is no backup: the previous key sees what the current one has made of the body. */
  lemma LongBodySpoiled(aes: Aes, p: Params, ctx: Ctx, nonce: seq<byte>, c: seq<byte>, tag: seq<byte>)
    requires |nonce| <= 16 && p.mode == 1 && |c| > 2048 && |tag| == 16
    ensures var a := Stream(aes, p, ctx.current, nonce, c);
            var b := Stream(aes, p, ctx.prev, nonce, a);
            var r := Open(aes, p, ctx, nonce, c + tag);
            if TagUnder(aes, p, ctx.current, nonce, c) == tag then r == Some(a)
            else if TagUnder(aes, p, ctx.prev, nonce, a) == tag then r == Some(b)
            else if TagUnder(aes, p, ctx.next, nonce, b) == tag then r == Some(Stream(aes, p, ctx.next, nonce, b))
            else r == None
  {
    hide Stream;
    assert (c + tag)[..|c|] == c && (c + tag)[|c|..] == tag;
    var a := Stream(aes, p, ctx.current, nonce, c);
    var b := Stream(aes, p, ctx.prev, nonce, a);
    var d := Stream(aes, p, ctx.next, nonce, b);
    assert OpenFrom(aes, p, ctx, nonce, tag, None, c, d, 3) == None;
    OpenFromLong(aes, p, ctx, nonce, tag, c, c, 0);
    OpenFromLong(aes, p, ctx, nonce, tag, c, a, 1);
    OpenFromLong(aes, p, ctx, nonce, tag, c, b, 2);
  }

  lemma OpenFromLong(aes: Aes, p: Params, ctx: Ctx, nonce: seq<byte>, tag: seq<byte>, c: seq<byte>, work: seq<byte>,
                     k: nat)
    requires |nonce| <= 16 && p.mode == 1 && |c| > 2048 && |work| == |c| && k < 3
    ensures var key := if k == 0 then ctx.current else if k == 1 then ctx.prev else ctx.next;
            var out := Stream(aes, p, key, nonce, work);
            OpenFrom(aes, p, ctx, nonce, tag, None, c, work, k)
            == if TagUnder(aes, p, key, nonce, work) == tag then Some(out)
               else OpenFrom(aes, p, ctx, nonce, tag, None, c, out, k + 1)
  {
    hide Stream;
  }

  /** Without authentication the current key opens everything; a body without room for its tag never opens. */
  lemma OpensWithoutTag(aes: Aes, p: Params, ctx: Ctx, nonce: seq<byte>, body: seq<byte>)
    requires |nonce| <= 16
    ensures p.mode != 1 ==> Open(aes, p, ctx, nonce, body) == Some(Stream(aes, p, ctx.current, nonce, body))
    ensures p.mode == 1 && |body| < 16 ==> Open(aes, p, ctx, nonce, body) == None
    ensures p.mode == 1 && |body| == 16 ==> Open(aes, p, ctx, nonce, body) == Some([])
  {
    hide Stream;
    if p.mode != 1 {
      assert body[..|body|] == body;
    }
  }

  /** Not a TCP or UDP payload without ports, or with both ports zero. */
  predicate ShowsPorts(plain: seq<byte>, proto: byte) {
    (proto != 6 && proto != 17) || (|plain| >= 4 && !(plain[0] == plain[1] == plain[2] == plain[3] == 0))
  }

  /**
   * Layer 3 opens like layer 4 with authentication; without, a body of up to 2048 octets opens under
   * the first of the three keys that shows ports.
   */
  lemma FirstPortsOpen(aes: Aes, p: Params, ctx: Ctx, nonce: seq<byte>, body: seq<byte>, proto: byte)
    requires |nonce| <= 16
    ensures p.mode == 1 ==> OpenFor(aes, p, ctx, nonce, body, Some(proto)) == Open(aes, p, ctx, nonce, body)
    ensures p.mode != 1 && |body| <= 2048 ==>
              var r := OpenFor(aes, p, ctx, nonce, body, Some(proto));
              var a, b := Stream(aes, p, ctx.current, nonce, body), Stream(aes, p, ctx.prev, nonce, body);
              var d := Stream(aes, p, ctx.next, nonce, body);
              r == if ShowsPorts(a, proto) then Some(a) else if ShowsPorts(b, proto) then Some(b)
                   else if ShowsPorts(d, proto) then Some(d) else None
  {
    hide Stream;
    hide PortsPlausible;
    hide ShowsPorts;
    if p.mode == 1 {
      if |body| >= 16 {
        var n := |body| - 16;
        AnyProto(aes, p, ctx, nonce, body[n..], proto, body[..n], body[..n], 0);
      }
    } else if |body| <= 2048 {
      assert body[..|body|] == body;
      var a, b := Stream(aes, p, ctx.current, nonce, body), Stream(aes, p, ctx.prev, nonce, body);
      PortsExactly(a, proto);
      PortsExactly(b, proto);
      PortsExactly(Stream(aes, p, ctx.next, nonce, body), proto);
      PortsStep(aes, p, ctx, nonce, proto, body, body, 0);
      PortsStep(aes, p, ctx, nonce, proto, body, a, 1);
      PortsStep(aes, p, ctx, nonce, proto, body, b, 2);
    }
  }

  lemma PortsExactly(plain: seq<byte>, proto: byte)
    ensures PortsPlausible(plain, proto) <==> ShowsPorts(plain, proto)
  {
    if |plain| >= 4 && plain[0] == plain[1] == plain[2] == plain[3] == 0 {
      assert plain[..4] == [0, 0, 0, 0];
    }
  }

  lemma PortsStep(aes: Aes, p: Params, ctx: Ctx, nonce: seq<byte>, proto: byte, c: seq<byte>, work: seq<byte>, k: nat)
    requires |nonce| <= 16 && p.mode != 1 && |c| <= 2048 && |work| == |c| && k < 3 && (k == 0 ==> work == c)
    ensures var key := if k == 0 then ctx.current else if k == 1 then ctx.prev else ctx.next;
            var out := Stream(aes, p, key, nonce, c);
            OpenFrom(aes, p, ctx, nonce, [], Some(proto), c, work, k)
            == (if PortsPlausible(out, proto) then Some(out)
                else if k == 2 then None
                else OpenFrom(aes, p, ctx, nonce, [], Some(proto), c, out, k + 1))
  {
    hide Stream;
    hide PortsPlausible;
  }

  lemma {:induction false} AnyProto(aes: Aes, p: Params, ctx: Ctx, nonce: seq<byte>, tag: seq<byte>, proto: byte,
                                    c: seq<byte>, work: seq<byte>, k: nat)
    requires |nonce| <= 16 && p.mode == 1 && |c| == |work| && k <= 3
    ensures OpenFrom(aes, p, ctx, nonce, tag, Some(proto), c, work, k)
         == OpenFrom(aes, p, ctx, nonce, tag, None, c, work, k)
    decreases 3 - k
  {
    hide Stream;
    hide Accepts;
    if k < 3 {
      var w := if k > 0 && |c| <= BackupSize then c else work;
      AnyProto(aes, p, ctx, nonce, tag, proto, c, Stream(aes, p, ctx.KeyTried(k), nonce, w), k + 1);
    }
  }

  // ---- layer 4 ----

  /** TCP or UDP over IPv4 with a header of at least 20 octets. */
  predicate FlowHeader(w: seq<byte>, l3: nat) {
    && Ipv4Offset(w) == Some(l3) && l3 + 20 <= |w| && (w[l3 + 9] == 6 || w[l3 + 9] == 17) && w[l3] % 16 >= 5
  }

  /**
   * Any packet: without a context or with a broken IPv4 header layer 4 fails; it passes on what has
   * no tunnel header of its own making - 0xA5 one octet behind the nonce, whose top bit is clear -
   * and otherwise gives the opened payload behind the ports, with the length and checksum of that.
   */
  lemma DecryptOutcomeL4(aes: Aes, p: Params, ctx: Ctx, w: seq<byte>)
    requires p.Valid()
    ensures var o := DecryptResult(aes, p, ctx, w);
            if !ctx.initialized then o == Failed
            else if Ipv4Offset(w).None? then o == Unchanged
            else
              var l3 := Ipv4Offset(w).value;
              if |w| < l3 + 20 then o == Failed
              else if w[l3 + 9] != 6 && w[l3 + 9] != 17 then o == Unchanged
              else if w[l3] % 16 < 5 then o == Failed
              else
                var ihl := 4 * (w[l3] % 16) as int;
                var at := l3 + ihl + 4;
                var bodyAt := at + p.nonceSize + 2;
                if |w| < bodyAt || w[bodyAt - 1] != 0xA5 || w[at] >= 128 then o == Unchanged
                else
                  match Open(aes, p, ctx, w[at..at + p.nonceSize], w[bodyAt..])
                  case None => o == Failed
                  case Some(plain) =>
                    && o.Rewritten? && |o.pkt| == at + |plain| && o.pkt[at..] == plain
                    && Stamped(w[..at], o.pkt[..at], l3, ihl, (|o.pkt| - l3) % 0x1_0000)
  {
    hide Open;
    hide Ipv4Offset;
    hide PatchIpv4;
    hide Stamped;
    if ctx.initialized && Ipv4Offset(w).Some? {
      var l3 := Ipv4Offset(w).value;
      if FlowHeader(w, l3) && Split(p, TunnelMagic, 0, w).Some? {
        var t := Split(p, TunnelMagic, 0, w).value;
        if Open(aes, p, ctx, t.nonce, t.body).Some? {
          RejoinStamped(t.front, l3, Open(aes, p, ctx, t.nonce, t.body).value);
        }
      }
    }
  }

  lemma RejoinStamped(front: seq<byte>, l3: nat, plain: seq<byte>)
    requires l3 + 20 <= |front| && Ihl(front, l3) >= 20 && |front| == l3 + Ihl(front, l3) + PortLen
    ensures var r := Rejoin(front, l3, plain);
            && r[|front|..] == plain && |r| == |front| + |plain|
            && Stamped(front, r[..|front|], l3, Ihl(front, l3), (|r| - l3) % 0x1_0000)
  {
    hide PatchIpv4;
    hide Stamped;
    var h := PatchIpv4(front, l3, Ihl(front, l3), (Ihl(front, l3) + PortLen + |plain|) % 0x1_0000);
    assert Rejoin(front, l3, plain) == h + plain;
    PatchStampsExactly(front, h, l3, Ihl(front, l3), (Ihl(front, l3) + PortLen + |plain|) % 0x1_0000);
  }

  /** A layer-4 fragment: 0x5A and four octets of tag, whose first two are the id and whose third is the index. */
  lemma DecryptFragmentOutcomeL4(aes: Aes, p: Params, ctx: Ctx, w: seq<byte>)
    requires p.Valid()
    ensures var r := DecryptFragment(aes, p, ctx, w);
            if !ctx.initialized || Ipv4Offset(w).None? || !FlowHeader(w, Ipv4Offset(w).value) then r == None
            else
              var l3 := Ipv4Offset(w).value;
              var ihl := 4 * (w[l3] % 16) as int;
              var at := l3 + ihl + 4;
              var tagAt := at + p.nonceSize + 2;
              if |w| < tagAt + 4 || w[tagAt - 1] != 0x5A then r == None
              else
                match Open(aes, p, ctx, w[at..at + p.nonceSize], w[tagAt + 4..])
                case None => r == None
                case Some(plain) =>
                  && r.Some? && r.value.id == w[tagAt] as int * 256 + w[tagAt + 1] as int
                  && r.value.index == w[tagAt + 2]
                  && |r.value.pkt| == at + |plain| && r.value.pkt[at..] == plain
                  && Stamped(w[..at], r.value.pkt[..at], l3, ihl, (|r.value.pkt| - l3) % 0x1_0000)
  {
    hide Open;
    hide Ipv4Offset;
    hide PatchIpv4;
    hide Stamped;
    if ctx.initialized && Ipv4Offset(w).Some? && FlowHeader(w, Ipv4Offset(w).value) {
      var l3 := Ipv4Offset(w).value;
      if Split(p, FragMagic, FragTagLen, w).Some? {
        var t := Split(p, FragMagic, FragTagLen, w).value;
        if Open(aes, p, ctx, t.nonce, t.body).Some? {
          RejoinStamped(t.front, l3, Open(aes, p, ctx, t.nonce, t.body).value);
        }
      }
    }
  }

  // ---- layer 3 ----

  /**
   * Any packet: layer 3 passes on what does not carry its marker protocol, has no room for its tunnel
   * header, or shows the fragment mark 0x5C in place of the true protocol. The octet there becomes the
   * protocol, and the total length is lowered by what layer 3 adds.
   */
  lemma DecryptOutcomeL3(aes: Aes, p: Params, ctx: Ctx, w: seq<byte>)
    requires p.Valid() && |w| <= 0xFFFF
    ensures var o := DecryptResultL3(aes, p, ctx, w);
            if !ctx.initialized || |w| < 22 then o == Failed
            else if !Ipv4At14(w) || w[23] != p.fakeProtocol then o == Unchanged
            else
              var ihl := 4 * (w[14] % 16) as int;
              var at := 14 + ihl;
              var bodyAt := at + p.nonceSize + 2;
              if |w| < bodyAt || w[bodyAt - 1] == 0x5C then o == Unchanged
              else
                var added := p.nonceSize + 2 + (if p.mode == 1 then 16 else 0);
                match OpenFor(aes, p, ctx, w[at..at + p.nonceSize], w[bodyAt..], Some(w[bodyAt - 1]))
                case None => o == Failed
                case Some(plain) =>
                  && o.Rewritten? && |o.pkt| == at + |plain|
                  && Stamped(w[..at][23 := w[bodyAt - 1]], o.pkt[..at], 14, ihl,
                             (w[16] as int * 256 + w[17] as int - added) % 0x1_0000)
                  && o.pkt[at..] == Rechecked(o.pkt[14..at], w[bodyAt - 1], plain)
  {
    hide OpenFor;
    hide Rechecked;
    hide PatchIpv4;
    hide Stamped;
    if ctx.initialized && Ipv4At14(w) && w[23] == p.fakeProtocol {
      var at := 14 + Ihl(w, 14);
      var bodyAt := at + p.TunnelHdrSize();
      if |w| >= bodyAt && w[bodyAt - 1] != FragMagicL3 {
        var proto := w[bodyAt - 1];
        var r := OpenFor(aes, p, ctx, w[at..at + p.nonceSize], w[bodyAt..], Some(proto));
        if r.Some? {
          RestoredStamped(w[..at], proto, (TotalLength(w) - p.TunnelHdrSize() - p.TagLen()) % 0x1_0000, r.value);
        }
      }
    }
  }

  lemma RestoredStamped(head: seq<byte>, proto: byte, total: u16, plain: seq<byte>)
    requires |head| >= 34 && Ihl(head, 14) >= 20 && |head| == 14 + Ihl(head, 14) && |plain| <= 0xFFFF
    ensures var r := Restored(head, proto, total, plain);
            && |r| == |head| + |plain|
            && Stamped(head[23 := proto], r[..|head|], 14, Ihl(head, 14), total)
            && r[|head|..] == Rechecked(r[14..|head|], proto, plain)
  {
    hide PatchIpv4;
    hide Stamped;
    hide Rechecked;
    var h := PatchIpv4(head[ProtoAt := proto], 14, Ihl(head, 14), total);
    assert Restored(head, proto, total, plain) == h + Rechecked(h[14..], proto, plain);
    assert (h + Rechecked(h[14..], proto, plain))[14..|head|] == h[14..];
    PatchStampsExactly(head[ProtoAt := proto], h, 14, Ihl(head, 14), total);
  }

  lemma DecryptFragmentOutcomeL3(aes: Aes, p: Params, ctx: Ctx, w: seq<byte>)
    requires p.Valid()
    ensures var r := DecryptFragmentL3(aes, p, ctx, w);
            if !ctx.initialized || !Ipv4At14(w) || w[23] != p.fakeProtocol then r == None
            else
              var ihl := 4 * (w[14] % 16) as int;
              var at := 14 + ihl;
              var tagAt := at + p.nonceSize + 2;
              if |w| < tagAt + 4 || w[tagAt - 1] != 0x5C then r == None
              else
                match Open(aes, p, ctx, w[at..at + p.nonceSize], w[tagAt + 4..])
                case None => r == None
                case Some(plain) =>
                  && r.Some? && r.value.id == w[tagAt] as int * 256 + w[tagAt + 1] as int
                  && r.value.index == w[tagAt + 2]
                  && |r.value.pkt| == at + |plain| && r.value.pkt[at..] == plain
                  && Stamped(w[..at], r.value.pkt[..at], 14, ihl, (|r.value.pkt| - 14) % 0x1_0000)
  {
    hide Open;
    hide PatchIpv4;
    hide Stamped;
    if ctx.initialized && Ipv4At14(w) && w[23] == p.fakeProtocol {
      var at := 14 + Ihl(w, 14);
      var tagAt := at + p.nonceSize + 2;
      if |w| >= tagAt + 4 {
        var r := Open(aes, p, ctx, w[at..at + p.nonceSize], w[tagAt + 4..]);
        if r.Some? {
          RejoinStampedL3(w[..at], r.value);
        }
      }
    }
  }

  lemma RejoinStampedL3(head: seq<byte>, plain: seq<byte>)
    requires |head| >= 34 && Ihl(head, 14) >= 20 && |head| == 14 + Ihl(head, 14)
    ensures var r := RejoinL3(head, plain);
            && r[|head|..] == plain && |r| == |head| + |plain|
            && Stamped(head, r[..|head|], 14, Ihl(head, 14), (|r| - 14) % 0x1_0000)
  {
    hide PatchIpv4;
    hide Stamped;
    var h := PatchIpv4(head, 14, Ihl(head, 14), (Ihl(head, 14) + |plain|) % 0x1_0000);
    assert RejoinL3(head, plain) == h + plain;
    PatchStampsExactly(head, h, 14, Ihl(head, 14), (Ihl(head, 14) + |plain|) % 0x1_0000);
  }

  // ---- layer 2 ----

  /** A payload that looks like an IPv4 header of a common protocol with time to live. */
  predicate LooksLikeIpv4(plain: seq<byte>) {
    && |plain| >= 20 && plain[8] > 0
    && (plain[9] == 1 || plain[9] == 2 || plain[9] == 6 || plain[9] == 17 || plain[9] == 47 || plain[9] == 50
        || plain[9] == 51 || plain[9] == 58 || plain[9] == 89 || plain[9] == 132)
  }

  /**
   * Any packet: layer 2 passes on what has not its marker, or shows the fragment mark 0x5B behind the
   * nonce. Only the current key is tried; without authentication the payload must look like IPv4. An
   * EtherType 08 00 at its front is taken off, and 08 00 stands behind the addresses.
   */
  lemma DecryptOutcomeL2(aes: Aes, p: Params, ctx: Ctx, w: seq<byte>)
    requires p.Valid()
    ensures var o := DecryptResultL2(aes, p, ctx, w);
            var bodyAt := 14 + p.nonceSize;
            if !ctx.initialized || |w| < bodyAt then o == Failed
            else if p.fakeEthertype == 0 || w[12] != p.fakeEthertype / 256 then o == Unchanged
            else if |w| > bodyAt && w[bodyAt] == 0x5B then o == Unchanged
            else if p.mode == 1 && |w| < bodyAt + 16 then o == Failed
            else
              var n := if p.mode == 1 then |w| - 16 else |w|;
              var nonce, c := w[14..bodyAt], w[bodyAt..n];
              var plain := Stream(aes, p, ctx.current, nonce, c);
              if (if p.mode == 1 then c == [] || TagUnder(aes, p, ctx.current, nonce, c) == w[n..]
                  else LooksLikeIpv4(plain))
              then
                && o.Rewritten? && o.pkt[..12] == w[..12] && o.pkt[12] == 0x08 && o.pkt[13] == 0
                && o.pkt[14..] == (if |plain| >= 2 && plain[0] == 0x08 && plain[1] == 0 then plain[2..] else plain)
              else o == Failed
  {
    hide Stream;
    var bodyAt := 14 + p.nonceSize;
    if ctx.initialized && |w| >= bodyAt && HasMarker(p, w) {
      var body := w[bodyAt..];
      if p.mode == 1 && |w| >= bodyAt + 16 {
        assert body[..|body| - 16] == w[bodyAt..|w| - 16] && body[|body| - 16..] == w[|w| - 16..];
      }
      if p.mode != 1 {
        assert body[..|body|] == body == w[bodyAt..|w|];
      }
    }
  }

  lemma DecryptFragmentOutcomeL2(aes: Aes, p: Params, ctx: Ctx, w: seq<byte>)
    requires p.Valid()
    ensures var r := DecryptFragmentL2(aes, p, ctx, w);
            var tagAt := 14 + p.nonceSize + 1;
            if !ctx.initialized || |w| < tagAt + 4 || p.fakeEthertype == 0 || w[12] != p.fakeEthertype / 256
               || w[tagAt - 1] != 0x5B
            then r == None
            else
              match Open(aes, p, ctx, w[14..14 + p.nonceSize], w[tagAt + 4..])
              case None => r == None
              case Some(plain) =>
                && r.Some? && r.value.id == w[tagAt] as int * 256 + w[tagAt + 1] as int
                && r.value.index == w[tagAt + 2] && r.value.pkt == w[..14] + plain
  {
    hide Open;
  }
}
