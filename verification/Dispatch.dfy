/**
 * Finding the policy of a received layer-4 packet and decrypting it
 * (src/crypto/crypto_dispatch.c with src/crypto/crypto_policy_utils.c).
 */
module Dispatch {
  import opened Bytes
  import opened Checksum
  import opened ConfigMerge
  import opened CryptoRuntime
  import opened Layer4
  import opened PacketCrypto
  import opened Policy

  /** crypto_apply_from_policy; the two marker settings are left as they are. */
  function ParamsOf(cp: Policy, markers: Params): Params {
    Params(cp.cryptoMode, cp.nonceSize, cp.aesBits, WireId(cp), markers.fakeProtocol, markers.fakeEthertype)
  }

  /** Mode, cipher, nonce size and id octet are the policy's own. */
  lemma AppliedSettings(cp: Policy, markers: Params)
    ensures var p := ParamsOf(cp, markers);
            && p.mode == cp.cryptoMode && p.aesBits == cp.aesBits && p.nonceSize == cp.nonceSize
            && p.policyId == cp.id % 256 && p.fakeProtocol == markers.fakeProtocol
            && p.fakeEthertype == markers.fakeEthertype
  {
  }

  // ---- policy id of a packet ----

  /** L4 policies whose nonces fit the nonce buffer. */
  predicate NoncesFit(ps: seq<Policy>) {
    forall i :: 0 <= i < |ps| && ps[i].action == EncryptL4 ==> ps[i].nonceSize <= 16
  }

  /** Whether policy i recognises the octets after the ports, at at. */
  predicate Hit(ps: seq<Policy>, i: nat, w: seq<byte>, at: nat) {
    && i < |ps| && ps[i].action == EncryptL4 && ps[i].nonceSize > 0
    && at + ps[i].nonceSize + 1 < |w|
    && w[at + ps[i].nonceSize + 1] == TunnelMagic && w[at + ps[i].nonceSize] == WireId(ps[i])
  }

  function FirstHit(ps: seq<Policy>, i: nat, w: seq<byte>, at: nat): (r: Option<nat>)
    ensures r.Some? ==> i <= r.value < |ps| && Hit(ps, r.value, w, at)
    ensures forall k :: i <= k < (if r.Some? then r.value else |ps|) ==> !Hit(ps, k, w, at)
    decreases |ps| - i
  {
    if i >= |ps| then None else if Hit(ps, i, w, at) then Some(i) else FirstHit(ps, i + 1, w, at)
  }

  /** Where the tunnel header of a packet with acceptable headers starts. */
  function TunnelAt(w: seq<byte>): (r: Option<nat>) {
    if HeadersOk(w) && |w| >= Ipv4Offset(w).value + Ihl(w, Ipv4Offset(w).value) + 8
    then Some(Ipv4Offset(w).value + Ihl(w, Ipv4Offset(w).value) + PortLen) else None
  }

  /** Wire id and nonce size that crypto_l4_extract_policy_id_ipv4 reads off a packet. */
  function Extract(ps: seq<Policy>, w: seq<byte>): (r: Option<(byte, int)>)
    ensures r.Some? && NoncesFit(ps) ==> 1 <= r.value.1 <= 16
  {
    match TunnelAt(w)
    case None => None
    case Some(at) =>
      match FirstHit(ps, 0, w, at)
      case None => None
      case Some(i) => Some((WireId(ps[i]), ps[i].nonceSize))
  }

  /** Behind the ports of TCP or UDP over IPv4 with at least eight octets of transport. */
  lemma TunnelAtExactly(w: seq<byte>)
    ensures TunnelAt(w)
         == match Ipv4Offset(w)
            case None => None
            case Some(l3) =>
              if l3 + 20 <= |w| && (w[l3 + 9] == 6 || w[l3 + 9] == 17) && w[l3] % 16 >= 5
                 && l3 + 4 * (w[l3] % 16) as int + 8 <= |w|
              then Some(l3 + 4 * (w[l3] % 16) as int + 4) else None
  {
    hide Ipv4Offset;
  }

  /** A layer-4 policy whose id and 0xA5 stand where its nonce would end. */
  predicate Shows(cp: Policy, w: seq<byte>, at: nat) {
    && cp.action == 4 && cp.nonceSize > 0 && at + cp.nonceSize + 1 < |w|
    && w[at + cp.nonceSize] == cp.id % 256 && w[at + cp.nonceSize + 1] == 0xA5
  }

  /** Read off are the id octet and nonce size of the first policy that shows, and nothing without one. */
  lemma ExtractExactly(ps: seq<Policy>, w: seq<byte>)
    ensures TunnelAt(w).None? ==> Extract(ps, w) == None
    ensures TunnelAt(w).Some? ==>
      var at, r := TunnelAt(w).value, Extract(ps, w);
      if r.Some? then exists i :: 0 <= i < |ps| && Shows(ps[i], w, at) && r.value == (ps[i].id % 256, ps[i].nonceSize)
                                  && forall k :: 0 <= k < i ==> !Shows(ps[k], w, at)
      else forall k :: 0 <= k < |ps| ==> !Shows(ps[k], w, at)
  {
    hide TunnelAt;
    if TunnelAt(w).Some? {
      var at := TunnelAt(w).value;
      var first := FirstHit(ps, 0, w, at);
      assert forall k :: 0 <= k < |ps| ==> (Hit(ps, k, w, at) <==> Shows(ps[k], w, at));
      if first.Some? {
        assert Shows(ps[first.value], w, at);
      }
    }
  }

  method ExtractPolicyId(ps: seq<Policy>, w: seq<byte>) returns (r: Option<(byte, int)>)
    ensures r == Extract(ps, w)
  {
    hide Ipv4Offset;
    var off := Ipv4Offset(w);
    if off.None? || |w| < off.value + 20 {
      return None;
    }
    var ihl := Ihl(w, off.value);
    if ihl < 20 || |w| < off.value + ihl + 8 {
      return None;
    }
    if w[off.value + 9] != 6 && w[off.value + 9] != 17 {
      return None;
    }
    var at := off.value + ihl + PortLen;
    var i := 0;
    while i < |ps|
      invariant 0 <= i <= |ps|
      invariant FirstHit(ps, 0, w, at) == FirstHit(ps, i, w, at)
    {
      var cp := ps[i];
      if cp.action == EncryptL4 && cp.nonceSize > 0 {
        var ns := cp.nonceSize;
        if at + ns + 1 < |w| && w[at + ns + 1] == TunnelMagic && w[at + ns] == WireId(cp) {
          return Some((WireId(cp), ns));
        }
      }
      i := i + 1;
    }
    r := None;
  }

  // ---- policy index of an id ----

  predicate Named(ps: seq<Policy>, i: nat, action: int, id: byte) {
    i < |ps| && ps[i].action == action && WireId(ps[i]) == id
  }

  function FirstNamed(ps: seq<Policy>, i: nat, action: int, id: byte): (r: int)
    ensures r == -1 || (i <= r < |ps| && Named(ps, r, action, id))
    ensures r == -1 ==> forall k :: i <= k < |ps| ==> !Named(ps, k, action, id)
    decreases |ps| - i
  {
    if i >= |ps| then -1 else if Named(ps, i, action, id) then i else FirstNamed(ps, i + 1, action, id)
  }

  /** The table entry of (action, id); there is none for other actions. */
  ghost function TableEntry(rt: Runtime, action: int, id: byte): int
    requires rt.Shape()
    reads rt, rt.index, rt.ready, rt.ctx
  {
    if 0 <= action <= EncryptL4 then rt.index[action, id] else -1
  }

  /** lookup_policy_index given the table's entry: the entry if it is in range, else a scan. */
  function Lookup(ps: seq<Policy>, entry: int, action: int, id: byte): (r: int)
    ensures -1 <= r < |ps|
  {
    if 0 <= action <= EncryptL4 && 0 <= entry < |ps| then entry else FirstNamed(ps, 0, action, id)
  }

  method LookupPolicyIndex(rt: Runtime, ps: seq<Policy>, action: int, id: byte) returns (pi: int)
    requires rt.Shape()
    ensures pi == Lookup(ps, TableEntry(rt, action, id), action, id)
    ensures 0 <= action <= 4 && 0 <= rt.index[action, id] < |ps| ==> pi == rt.index[action, id]
    ensures !(0 <= action <= 4 && 0 <= rt.index[action, id] < |ps|) ==>
      && (pi == -1 || (0 <= pi < |ps| && ps[pi].action == action && ps[pi].id % 256 == id))
      && forall i :: 0 <= i < (if pi == -1 then |ps| else pi) ==> !(ps[i].action == action && ps[i].id % 256 == id)
  {
    if |ps| <= 0 {
      return -1;
    }
    if 0 <= action <= EncryptL4 {
      pi := rt.index[action, id];
      if 0 <= pi < |ps| {
        return;
      }
    }
    pi := 0;
    while pi < |ps|
      invariant 0 <= pi <= |ps|
      invariant FirstNamed(ps, 0, action, id) == FirstNamed(ps, pi, action, id)
      invariant forall i :: 0 <= i < pi ==> !(ps[i].action == action && ps[i].id % 256 == id)
    {
      var cp := ps[pi];
      if cp.action == action && WireId(cp) == id {
        return;
      }
      pi := pi + 1;
    }
    pi := -1;
  }

  // ---- decryption ----

  /** The policy index a runtime holds ready for what was extracted, if any. */
  ghost function Serving(rt: Runtime, ps: seq<Policy>, id: byte, ns: int): (r: Option<nat>)
    requires rt.Shape() && |ps| <= MaxPolicies
    reads rt, rt.index, rt.ready, rt.ctx
    ensures r.Some? ==> r.value < |ps| && ps[r.value].nonceSize == ns > 0
  {
    var pi := Lookup(ps, rt.index[EncryptL4, id], EncryptL4, id);
    if pi >= 0 && rt.ready[pi] && ps[pi].nonceSize > 0 && ps[pi].nonceSize == ns then Some(pi) else None
  }

  /** What decrypting with the policy a runtime serves gives; Unchanged when it serves none. */
  ghost function ServedResult(aes: Aes, markers: Params, rt: Runtime, ps: seq<Policy>, id: byte, ns: int,
                              w: seq<byte>): Outcome
    requires rt.Shape() && |ps| <= MaxPolicies && 1 <= ns <= 16
    reads rt, rt.index, rt.ready, rt.ctx
  {
    match Serving(rt, ps, id, ns)
    case None => Unchanged
    case Some(pi) => DecryptResult(aes, ParamsOf(ps[pi], markers), rt.ctx[pi], w)
  }

  /** What such an attempt leaves in the buffer when it gives nothing. */
  ghost function ServedLeft(aes: Aes, markers: Params, rt: Runtime, ps: seq<Policy>, id: byte, ns: int,
                            w: seq<byte>): (r: seq<byte>)
    requires rt.Shape() && |ps| <= MaxPolicies && 1 <= ns <= 16
    reads rt, rt.index, rt.ready, rt.ctx
    ensures |r| == |w|
  {
    match Serving(rt, ps, id, ns)
    case None => w
    case Some(pi) =>
      var p := ParamsOf(ps[pi], markers);
      if DecryptResult(aes, p, rt.ctx[pi], w).Failed? then Spoiled(aes, p, rt.ctx[pi], w) else w
  }

  /** A decryption counts as done when it gives a shorter packet. */
  predicate Shortens(o: Outcome, n: nat) {
    o.Rewritten? && |o.pkt| < n
  }

  /** What comes of a packet with a known id: the current policy is tried first, in grace the previous one. */
  ghost function AutoResult(aes: Aes, markers: Params, rt: Runtime, prev: Runtime, grace: bool, id: byte, ns: int,
                            w: seq<byte>): Option<seq<byte>>
    requires rt.Shape() && prev.Shape() && 1 <= ns <= 16
    reads rt, rt.index, rt.ready, rt.ctx, prev, prev.index, prev.ready, prev.ctx
  {
    var o := ServedResult(aes, markers, rt, rt.active, id, ns, w);
    var left := ServedLeft(aes, markers, rt, rt.active, id, ns, w);
    var q := ServedResult(aes, markers, prev, prev.active, id, ns, left);
    if Shortens(o, |w|) then Some(o.pkt)
    else if grace && |prev.active| > 0 && Shortens(q, |w|) then Some(q.pkt)
    else None
  }

  /** Layer 4 never gives back a packet as long as it got. */
  lemma DecryptShortens(aes: Aes, p: Params, ctx: Ctx, w: seq<byte>)
    requires p.Valid()
    ensures DecryptResult(aes, p, ctx, w).Rewritten? ==> |DecryptResult(aes, p, ctx, w).pkt| < |w|
  {
    hide Open;
    hide Ipv4Offset;
  }

  /** One attempt: the policy rt serves for (id, ns), tried on the buffer in place. */
  method TryRuntime(aes: Aes, markers: Params, rt: Runtime, ps: seq<Policy>, id: byte, ns: int, packet: array<byte>,
                    n: nat)
    returns (len: int)
    requires rt.Shape() && |ps| <= MaxPolicies && 1 <= ns <= 16 && n <= packet.Length
    modifies packet
    ensures var o := old(ServedResult(aes, markers, rt, ps, id, ns, packet[..n]));
            && (len >= 0 <==> Shortens(o, n))
            && (len >= 0 ==> len == |o.pkt| < n && packet[..len] == o.pkt)
            && (len < 0 ==> packet[..n] == old(ServedLeft(aes, markers, rt, ps, id, ns, packet[..n])))
  {
    hide DecryptResult;
    hide Spoiled;
    var pi := LookupPolicyIndex(rt, ps, EncryptL4, id);
    if pi < 0 || !rt.ready[pi] || ps[pi].nonceSize <= 0 || ps[pi].nonceSize != ns {
      return -1;
    }
    var r := Layer4.Decrypt(aes, ParamsOf(ps[pi], markers), rt.ctx[pi], packet, n);
    DecryptShortens(aes, ParamsOf(ps[pi], markers), rt.ctx[pi], old(packet[..n]));
    len := if 0 <= r < n then r else -1;
  }

  /**
   * The layer-4 branch of crypto_decrypt_packet_auto_by_action, for a configuration that has
   * policies. rt holds the current policies, prev those before the last start, tried while their
   * grace period lasts. A status of 0 with the length unchanged means that the packet is passed on
   * as it is.
   */
  method DecryptL4(aes: Aes, markers: Params, rt: Runtime, prev: Runtime, grace: bool, packet: array<byte>, n: nat)
    returns (status: int, len: nat)
    requires rt.Shape() && prev.Shape() && rt.active != [] && NoncesFit(rt.active) && n <= packet.Length
    modifies packet
    ensures len <= n && (status == 0 || status == -1) && (status == -1 ==> len == n)
    ensures Extract(rt.active, old(packet[..n])).None? ==> status == 0 && len == n && packet[..] == old(packet[..])
    ensures Extract(rt.active, old(packet[..n])).Some? ==>
      var (id, ns) := Extract(rt.active, old(packet[..n])).value;
      match old(AutoResult(aes, markers, rt, prev, grace, id, ns, packet[..n]))
      case Some(x) => status == 0 && len == |x| && packet[..len] == x
      case None => status == -1
  {
    hide ServedResult;
    hide ServedLeft;
    status, len := 0, n;
    var found := ExtractPolicyId(rt.active, packet[..n]);
    if found.None? {
      return;
    }
    var (id, ns) := found.value;
    var r := TryRuntime(aes, markers, rt, rt.active, id, ns, packet, n);
    if r >= 0 {
      len := r;
      return;
    }
    if grace && |prev.active| > 0 {
      r := TryRuntime(aes, markers, prev, prev.active, id, ns, packet, n);
      if r >= 0 {
        len := r;
        return;
      }
    }
    status := -1;
  }

  // ---- a packet finds its policy ----

  /** A packet the layer-4 encryption may be called on. */
  predicate Parsed(pkt: seq<byte>) {
    Ipv4Offset(pkt).Some? && L3Fits(pkt) ==> TransportInside(pkt)
  }

  /** All layer-4 policies use one nonce size. */
  predicate UniformNonces(ps: seq<Policy>, ns: int) {
    forall i :: 0 <= i < |ps| && ps[i].action == EncryptL4 && ps[i].nonceSize > 0 ==> ps[i].nonceSize == ns
  }

  /** No policy before i recognises the packet by accident, at its own nonce size. */
  predicate NoEarlierHit(ps: seq<Policy>, i: nat, w: seq<byte>, at: nat) {
    forall j :: 0 <= j < i <= |ps| ==> !Hit(ps, j, w, at)
  }

  /** Where the marker and wire id of an encrypted packet are. */
  lemma WireMarks(aes: Aes, p: Params, key: Key, nonce: seq<byte>, pkt: seq<byte>, l3: nat)
    requires 1 <= |nonce| == p.nonceSize <= IvSize && Ipv4Offset(pkt) == Some(l3) && TransportAt(pkt, l3)
    requires l3 + Ihl(pkt, l3) + 8 <= |pkt|
    ensures var w := WirePacket(aes, p, key, nonce, pkt, l3);
            var at := l3 + Ihl(pkt, l3) + PortLen;
            && TunnelAt(w) == Some(at) && at + p.nonceSize + 1 < |w|
            && w[at + p.nonceSize] == p.policyId && w[at + p.nonceSize + 1] == TunnelMagic
  {
    hide Seal;
    hide PatchIpv4;
    var at := l3 + Ihl(pkt, l3) + PortLen;
    var total := (|pkt| - l3 + |nonce| + 2 + p.TagLen()) % 0x1_0000;
    assert Front(pkt[..at], l3);
    PatchKeepsFront(pkt[..at], l3, total);
    FrontLeads(PatchIpv4(pkt[..at], l3, Ihl(pkt[..at], l3), total),
               TunnelHdr(p, nonce, TunnelMagic) + Seal(aes, p, key, nonce, pkt[at..]), l3);
    assert WirePacket(aes, p, key, nonce, pkt, l3)
        == PatchIpv4(pkt[..at], l3, Ihl(pkt[..at], l3), total)
            + (TunnelHdr(p, nonce, TunnelMagic) + Seal(aes, p, key, nonce, pkt[at..]));
  }

  lemma FrontLeads(front: seq<byte>, rest: seq<byte>, l3: nat)
    requires Front(front, l3) && |rest| >= 4
    ensures TunnelAt(front + rest) == Some(|front|)
  {
    var w := front + rest;
    assert Ipv4Offset(w) == Some(l3) && Ihl(w, l3) == Ihl(front, l3);
  }

  /** Whatever layer 4 encrypts is recognised by its own policy. */
  lemma OwnHit(aes: Aes, markers: Params, ps: seq<Policy>, i: nat, ctx: Ctx, counter: u32, salt: Salt, pkt: seq<byte>)
    requires i < |ps| && ps[i].action == EncryptL4 && 1 <= ps[i].nonceSize <= 16
    requires Parsed(pkt)
    requires EncryptResult(aes, ParamsOf(ps[i], markers), ctx, counter, salt, pkt).Rewritten?
    ensures var w := EncryptResult(aes, ParamsOf(ps[i], markers), ctx, counter, salt, pkt).pkt;
            TunnelAt(w).Some? && Hit(ps, i, w, TunnelAt(w).value)
  {
    hide WirePacket;
    hide Ipv4Offset;
    hide TunnelAt;
    var p := ParamsOf(ps[i], markers);
    WireMarks(aes, p, ctx.current, Nonce(counter, salt, p.nonceSize), pkt, Ipv4Offset(pkt).value);
  }

  /** With one nonce size and distinct wire ids there are no accidental hits. */
  lemma UniformHitIsOwn(ps: seq<Policy>, i: nat, w: seq<byte>, at: nat)
    requires IdsDistinct(ps) && i < |ps| && UniformNonces(ps, ps[i].nonceSize) && Hit(ps, i, w, at)
    ensures NoEarlierHit(ps, i, w, at)
  {
    forall j | 0 <= j < i
      ensures !Hit(ps, j, w, at)
    {
      assert ps[j].id != ps[i].id;
    }
  }

  /** The extracted id leads back to policy i, unless an earlier policy hits by accident. */
  lemma FoundAgain(rt: Runtime, i: nat, w: seq<byte>)
    requires rt.FreshFor(rt.active) && IdsDistinct(rt.active) && i < |rt.active| && Encrypts(rt.active[i])
    requires TunnelAt(w).Some? && Hit(rt.active, i, w, TunnelAt(w).value)
    requires NoEarlierHit(rt.active, i, w, TunnelAt(w).value)
    ensures var cp := rt.active[i];
            && Extract(rt.active, w) == Some((WireId(cp), cp.nonceSize))
            && Serving(rt, rt.active, WireId(cp), cp.nonceSize) == Some(i)
            && rt.ctx[i] == InitCtx(rt.hmac, cp.aesBits, cp.key)
  {
    hide TunnelAt;
    hide Slot;
    hide IdsDistinct;
    hide InitCtx;
    SlotIsHome(rt.active, i);
    FirstIsHit(rt.active, i, w, TunnelAt(w).value);
  }

  /** With distinct wire ids an earlier accidental hit is taken for another policy's packet. */
  lemma EarlierHitWins(ps: seq<Policy>, i: nat, w: seq<byte>)
    requires IdsDistinct(ps) && i < |ps| && TunnelAt(w).Some? && !NoEarlierHit(ps, i, w, TunnelAt(w).value)
    ensures Extract(ps, w) != Some((WireId(ps[i]), ps[i].nonceSize))
  {
    hide TunnelAt;
    hide Hit;
    hide WireId;
    hide IdsDistinct;
    var at := TunnelAt(w).value;
    var j :| 0 <= j < i && Hit(ps, j, w, at);
    var first := FirstHit(ps, 0, w, at);
    assert first.Some? && first.value <= j;
    WireIdsDiffer(ps, first.value, i);
  }

  lemma WireIdsDiffer(ps: seq<Policy>, j: nat, i: nat)
    requires IdsDistinct(ps) && j < i < |ps|
    ensures WireId(ps[j]) != WireId(ps[i])
  {
    assert ps[j].id != ps[i].id;
  }

  /**
   * A packet that layer 4 encrypted under policy i is mapped back to policy i if and only if no
   * earlier policy hits by accident, and then comes out with its canonical IPv4 length and checksum - so
   * unchanged exactly when those were canonical.
   */
  lemma DispatchRoundTrip(aes: Aes, markers: Params, rt: Runtime, i: nat, counter: u32, salt: Salt, pkt: seq<byte>)
    requires rt.FreshFor(rt.active) && IdsDistinct(rt.active) && i < |rt.active| && Encrypts(rt.active[i])
    requires rt.active[i].action == EncryptL4 && 1 <= rt.active[i].nonceSize <= 16
    requires Parsed(pkt)
    ensures EncryptResult(aes, ParamsOf(rt.active[i], markers), rt.ctx[i], counter, salt, pkt).Rewritten? ==>
            var cp := rt.active[i];
            var w := EncryptResult(aes, ParamsOf(cp, markers), rt.ctx[i], counter, salt, pkt).pkt;
            var o := ServedResult(aes, markers, rt, rt.active, WireId(cp), cp.nonceSize, w);
            && TunnelAt(w).Some?
            && (UniformNonces(rt.active, cp.nonceSize) ==> NoEarlierHit(rt.active, i, w, TunnelAt(w).value))
            && (NoEarlierHit(rt.active, i, w, TunnelAt(w).value)
                <==> Extract(rt.active, w) == Some((WireId(cp), cp.nonceSize)))
            && (NoEarlierHit(rt.active, i, w, TunnelAt(w).value) ==>
                 && Serving(rt, rt.active, WireId(cp), cp.nonceSize) == Some(i)
                 && o == Rewritten(Canonical(pkt, Ipv4Offset(pkt).value)) && Shortens(o, |w|)
                 && (o == Rewritten(pkt) <==> IsCanonical(pkt, Ipv4Offset(pkt).value)))
  {
    hide EncryptResult;
    hide DecryptResult;
    hide TunnelAt;
    hide Extract;
    hide InitCtx;
    hide IdsDistinct;
    hide PatchIpv4;
    hide IsCanonical;
    hide Ipv4Offset;
    hide Hit;
    hide NoEarlierHit;
    hide UniformNonces;
    hide Encrypts;
    var cp := rt.active[i];
    var p := ParamsOf(cp, markers);
    if EncryptResult(aes, p, rt.ctx[i], counter, salt, pkt).Rewritten? {
      var w := EncryptResult(aes, p, rt.ctx[i], counter, salt, pkt).pkt;
      OwnHit(aes, markers, rt.active, i, rt.ctx[i], counter, salt, pkt);
      if UniformNonces(rt.active, cp.nonceSize) {
        UniformHitIsOwn(rt.active, i, w, TunnelAt(w).value);
      }
      if NoEarlierHit(rt.active, i, w, TunnelAt(w).value) {
        FoundAgain(rt, i, w);
      } else {
        EarlierHitWins(rt.active, i, w);
      }
      RoundTrip(aes, p, rt.ctx[i], counter, salt, pkt);
    }
  }

  lemma NonceOnWire(aes: Aes, p: Params, key: Key, nonce: seq<byte>, pkt: seq<byte>, l3: nat, k: nat)
    requires k < |nonce| <= IvSize && TransportAt(pkt, l3) && l3 + Ihl(pkt, l3) + PortLen <= |pkt|
    ensures WirePacket(aes, p, key, nonce, pkt, l3)[l3 + Ihl(pkt, l3) + PortLen + k] == nonce[k]
  {
    hide Seal;
    hide PatchIpv4;
  }

  /**
   * Mixed nonce sizes can misroute all traffic of a policy (which configurations can misroute some
   * is NonceSizes.RecognisedExactly): when an earlier policy's nonce is shorter by at least two, a
   * salt that spells its wire id and the marker makes every packet of policy i look like its own.
   */
  lemma MixedNoncesMisroute(aes: Aes, markers: Params, ps: seq<Policy>, j: nat, i: nat, ctx: Ctx, counter: u32,
                            salt: Salt, pkt: seq<byte>)
    requires j < i < |ps| && ps[i].action == ps[j].action == EncryptL4
    requires 4 <= ps[j].nonceSize && ps[j].nonceSize + 2 <= ps[i].nonceSize <= 16
    requires salt[ps[j].nonceSize - 4] == WireId(ps[j]) && salt[ps[j].nonceSize - 3] == TunnelMagic
    requires Parsed(pkt)
    ensures EncryptResult(aes, ParamsOf(ps[i], markers), ctx, counter, salt, pkt).Rewritten? ==>
            var w := EncryptResult(aes, ParamsOf(ps[i], markers), ctx, counter, salt, pkt).pkt;
            && TunnelAt(w).Some? && Hit(ps, j, w, TunnelAt(w).value)
            && (NoEarlierHit(ps, j, w, TunnelAt(w).value) ==> Extract(ps, w) == Some((WireId(ps[j]), ps[j].nonceSize)))
  {
    hide Ipv4Offset;
    hide TunnelAt;
    hide WirePacket;
    hide NoEarlierHit;
    var p := ParamsOf(ps[i], markers);
    var nonce := Nonce(counter, salt, p.nonceSize);
    var k := ps[j].nonceSize;
    assert nonce[k] == salt[k - 4] && nonce[k + 1] == salt[k - 3];
    hide Nonce;
    if EncryptResult(aes, p, ctx, counter, salt, pkt).Rewritten? {
      var l3 := Ipv4Offset(pkt).value;
      WireMarks(aes, p, ctx.current, nonce, pkt, l3);
      NonceOnWire(aes, p, ctx.current, nonce, pkt, l3, k);
      NonceOnWire(aes, p, ctx.current, nonce, pkt, l3, k + 1);
      var w := WirePacket(aes, p, ctx.current, nonce, pkt, l3);
      if NoEarlierHit(ps, j, w, TunnelAt(w).value) {
        FirstIsHit(ps, j, w, TunnelAt(w).value);
      }
    }
  }

  lemma FirstIsHit(ps: seq<Policy>, i: nat, w: seq<byte>, at: nat)
    requires Hit(ps, i, w, at) && NoEarlierHit(ps, i, w, at)
    ensures FirstHit(ps, 0, w, at) == Some(i)
  {
  }
}
