/**
 * Keys, nonces and payload sealing of src/crypto/packet_crypto.c.
 *
 * AES itself is a parameter: two keystreams and one tag function, about which nothing is assumed.
 * AES-CTR is XOR with a keystream (NIST SP 800-38A section 6.5); AES-GCM is XOR with a keystream
 * plus a tag over the ciphertext (NIST SP 800-38D section 7), so that opening a sealed payload is
 * a theorem here and not an assumption.
 */
module PacketCrypto {
  import opened Bytes

  const IvSize := 16
  const TagSize := 16
  const BackupSize := 2048

  type Key = k: seq<byte> | |k| == 32 witness seq(32, _ => 0)
  type Tag = t: seq<byte> | |t| == TagSize witness seq(16, _ => 0)
  type Salt = s: seq<byte> | |s| == 16 witness seq(16, _ => 0)

  /** For (aes bits, key, iv or nonce): keystream octet i, and the tag of a ciphertext. */
  datatype Aes = Aes(
    ctr: (int, Key, seq<byte>, nat) -> byte,
    gcm: (int, Key, seq<byte>, nat) -> byte,
    tag: (int, Key, seq<byte>, seq<byte>) -> Tag)

  /** The per-thread settings that crypto_apply_from_policy writes. */
  datatype Params = Params(mode: int, nonceSize: int, aesBits: int, policyId: byte,
                           fakeProtocol: byte, fakeEthertype: u16)
  {
    predicate Gcm() { mode == 1 }

    /** A nonce must be non-empty and fit the 16-octet nonce buffer. */
    predicate Valid() { 1 <= nonceSize <= 16 }

    function TunnelHdrSize(): int { nonceSize + 2 }

    function TagLen(): nat { if Gcm() then TagSize else 0 }
  }

  datatype Ctx = Ctx(master: Key, prev: Key, current: Key, next: Key, initialized: bool) {
    /** The key tried k-th when opening a payload: CURRENT, PREV, NEXT. */
    function KeyTried(k: nat): Key {
      if k == 0 then current else if k == 1 then prev else next
    }
  }

  /** crypto_generate_nonce for PROTO_FLAG_IPV4 and a 31-bit counter. */
  function Nonce(counter: u32, salt: Salt, size: nat): (n: seq<byte>)
    requires 1 <= size <= 16
    ensures |n| == size && n[0] < 128
  {
    var head: seq<byte> := [counter / 0x100_0000 % 128, counter / 0x1_0000 % 256, counter / 0x100 % 256, counter % 256];
    (head + salt)[..size]
  }

  function Iv(nonce: seq<byte>): (iv: seq<byte>)
    requires |nonce| <= IvSize
    ensures |iv| == IvSize && nonce <= iv
  {
    nonce + seq(IvSize - |nonce|, _ => 0)
  }

  function Keystream(aes: Aes, p: Params, key: Key, nonce: seq<byte>, i: nat): byte
    requires |nonce| <= IvSize
  {
    if p.Gcm() then aes.gcm(p.aesBits, key, nonce, i) else aes.ctr(p.aesBits, key, Iv(nonce), i)
  }

  function Stream(aes: Aes, p: Params, key: Key, nonce: seq<byte>, data: seq<byte>): (r: seq<byte>)
    requires |nonce| <= IvSize
    ensures |r| == |data|
  {
    seq(|data|, i requires 0 <= i < |data| => Xor(data[i], Keystream(aes, p, key, nonce, i)))
  }

  lemma StreamTwice(aes: Aes, p: Params, key: Key, nonce: seq<byte>, data: seq<byte>)
    requires |nonce| <= IvSize
    ensures Stream(aes, p, key, nonce, Stream(aes, p, key, nonce, data)) == data
  {
    forall i | 0 <= i < |data|
      ensures Stream(aes, p, key, nonce, Stream(aes, p, key, nonce, data))[i] == data[i]
    {
      XorCancels(data[i], Keystream(aes, p, key, nonce, i));
    }
  }

  /** What goes on the wire for a plaintext: ciphertext, followed in GCM mode by its tag. */
  function Seal(aes: Aes, p: Params, key: Key, nonce: seq<byte>, plain: seq<byte>): (body: seq<byte>)
    requires |nonce| <= IvSize
    ensures |body| == |plain| + p.TagLen()
  {
    var c := Stream(aes, p, key, nonce, plain);
    if p.Gcm() then c + aes.tag(p.aesBits, key, nonce, c) else c
  }

  /** Whether one key accepts ciphertext work. The GCM call reports success on empty input. */
  predicate Accepts(aes: Aes, p: Params, key: Key, nonce: seq<byte>, tag: seq<byte>, work: seq<byte>) {
    p.Gcm() && work != [] ==> aes.tag(p.aesBits, key, nonce, work) == tag
  }

  /** verify_decrypted_payload: a TCP or UDP payload must not start with two zero ports. */
  predicate PortsPlausible(plain: seq<byte>, proto: byte) {
    proto == 6 || proto == 17 ==> |plain| >= 4 && plain[..4] != [0, 0, 0, 0]
  }

  /**
   * The key-order loop from its k-th key on. Each try overwrites the work area; the next one
   * starts from the saved ciphertext only when that fitted the backup buffer. With a protocol
   * given, CTR plaintext must also look plausible for it.
   */
  function OpenFrom(aes: Aes, p: Params, ctx: Ctx, nonce: seq<byte>, tag: seq<byte>, proto: Option<byte>,
                    saved: seq<byte>, work: seq<byte>, k: nat): (r: Option<seq<byte>>)
    requires |nonce| <= IvSize && k <= 3 && |saved| == |work|
    ensures r.Some? ==> |r.value| == |work|
    decreases 3 - k
  {
    if k == 3 then None
    else
      var w := if k > 0 && |saved| <= BackupSize then saved else work;
      var out := Stream(aes, p, ctx.KeyTried(k), nonce, w);
      if Accepts(aes, p, ctx.KeyTried(k), nonce, tag, w) && (p.Gcm() || proto.None? || PortsPlausible(out, proto.value))
      then Some(out)
      else OpenFrom(aes, p, ctx, nonce, tag, proto, saved, out, k + 1)
  }

  /** What the loop leaves in the work area when every try is refused: the output of the last one. */
  function LeftFrom(aes: Aes, p: Params, ctx: Ctx, nonce: seq<byte>, saved: seq<byte>, work: seq<byte>,
                    k: nat): (r: seq<byte>)
    requires |nonce| <= IvSize && k <= 3 && |saved| == |work|
    ensures |r| == |work|
    decreases 3 - k
  {
    if k == 3 then work
    else
      var w := if k > 0 && |saved| <= BackupSize then saved else work;
      LeftFrom(aes, p, ctx, nonce, saved, Stream(aes, p, ctx.KeyTried(k), nonce, w), k + 1)
  }

  /** What a refused body is afterwards; one too short for its tag is not touched. */
  function OpenLeft(aes: Aes, p: Params, ctx: Ctx, nonce: seq<byte>, body: seq<byte>): (r: seq<byte>)
    requires |nonce| <= IvSize
    ensures |r| == |body|
  {
    if |body| < p.TagLen() then body
    else
      var n := |body| - p.TagLen();
      LeftFrom(aes, p, ctx, nonce, body[..n], body[..n], 0) + body[n..]
  }

  /** The plaintext of a wire body, or None when it is too short or no key accepts it. */
  function OpenFor(aes: Aes, p: Params, ctx: Ctx, nonce: seq<byte>, body: seq<byte>,
                   proto: Option<byte>): (r: Option<seq<byte>>)
    requires |nonce| <= IvSize
    ensures r.Some? ==> |r.value| + p.TagLen() == |body|
  {
    if |body| < p.TagLen() then None
    else
      var n := |body| - p.TagLen();
      OpenFrom(aes, p, ctx, nonce, body[n..], proto, body[..n], body[..n], 0)
  }

  function Open(aes: Aes, p: Params, ctx: Ctx, nonce: seq<byte>, body: seq<byte>): (r: Option<seq<byte>>)
    requires |nonce| <= IvSize
    ensures r.Some? ==> |r.value| + p.TagLen() == |body|
  {
    OpenFor(aes, p, ctx, nonce, body, None)
  }

  /** Whatever was sealed under the current key opens to the plaintext, in both modes. */
  lemma OpenSealed(aes: Aes, p: Params, ctx: Ctx, nonce: seq<byte>, plain: seq<byte>)
    requires |nonce| <= IvSize
    ensures Open(aes, p, ctx, nonce, Seal(aes, p, ctx.current, nonce, plain)) == Some(plain)
  {
    var c := Stream(aes, p, ctx.current, nonce, plain);
    var body := Seal(aes, p, ctx.current, nonce, plain);
    assert body[..|plain|] == c;
    StreamTwice(aes, p, ctx.current, nonce, plain);
  }

  // ---- in-place forms ----

  /** crypto_aes_ctr_with_key, and the data part of the two GCM calls. */
  method StreamInPlace(aes: Aes, p: Params, key: Key, nonce: seq<byte>, a: array<byte>, off: nat, n: nat)
    requires |nonce| <= IvSize && off + n <= a.Length
    modifies a
    ensures a[..] == Splice(old(a[..]), off, Stream(aes, p, key, nonce, old(a[..])[off..off + n]))
  {
    hide Xor;
    hide Keystream;
    var i := 0;
    while i < n
      invariant 0 <= i <= n
      invariant forall j :: 0 <= j < a.Length ==>
        a[j] == if off <= j < off + i then Xor(old(a[j]), Keystream(aes, p, key, nonce, j - off)) else old(a[j])
    {
      a[off + i] := Xor(a[off + i], Keystream(aes, p, key, nonce, i));
      i := i + 1;
    }
  }

  /** The backup, try CURRENT, PREV, NEXT, restore loop shared by the decrypt functions. */
  method OpenInPlace(aes: Aes, p: Params, ctx: Ctx, nonce: seq<byte>, tag: seq<byte>, proto: Option<byte>,
                     a: array<byte>, off: nat, n: nat) returns (ok: bool)
    requires |nonce| <= IvSize && off + n <= a.Length
    modifies a
    ensures var c := old(a[..])[off..off + n];
            var r := OpenFrom(aes, p, ctx, nonce, tag, proto, c, c, 0);
            && ok == r.Some? && (ok ==> a[..] == Splice(old(a[..]), off, r.value))
            && (!ok ==> a[..] == Splice(old(a[..]), off, LeftFrom(aes, p, ctx, nonce, c, c, 0)))
  {
    ghost var before := a[..];
    var backup := a[off..off + n];
    assert before[off..off + n] == backup;
    assert a[..] == Splice(before, off, backup);
    hide Splice;
    hide Stream;
    ghost var work := backup;
    var k := 0;
    while k < 3
      invariant 0 <= k <= 3 && |work| == n
      invariant a[..] == Splice(before, off, work)
      invariant OpenFrom(aes, p, ctx, nonce, tag, proto, backup, backup, 0)
             == OpenFrom(aes, p, ctx, nonce, tag, proto, backup, work, k)
      invariant LeftFrom(aes, p, ctx, nonce, backup, backup, 0) == LeftFrom(aes, p, ctx, nonce, backup, work, k)
    {
      if k > 0 && n <= BackupSize {
        Copy(a, off, backup);
        SpliceOver(before, off, work, backup);
        work := backup;
      }
      SpliceSelf(before, off, work);
      assert a[..][off..off + n] == a[off..off + n];
      var accepted := Accepts(aes, p, ctx.KeyTried(k), nonce, tag, a[off..off + n]);
      StreamInPlace(aes, p, ctx.KeyTried(k), nonce, a, off, n);
      SpliceOver(before, off, work, Stream(aes, p, ctx.KeyTried(k), nonce, work));
      work := Stream(aes, p, ctx.KeyTried(k), nonce, work);
      SpliceSelf(before, off, work);
      assert a[..][off..off + n] == a[off..off + n];
      if accepted && (p.Gcm() || proto.None? || PortsPlausible(a[off..off + n], proto.value)) {
        return true;
      }
      k := k + 1;
    }
    ok := false;
  }

  /** Opens the wire body that fills the buffer from at to n; the plaintext is left at at. */
  method OpenBody(aes: Aes, p: Params, ctx: Ctx, nonce: seq<byte>, proto: Option<byte>, a: array<byte>, at: nat, n: nat)
    returns (len: int)
    requires |nonce| <= IvSize && at <= n <= a.Length
    modifies a
    ensures match OpenFor(aes, p, ctx, nonce, old(a[..])[at..n], proto)
            case None => len == -1 && a[..] == Splice(old(a[..]), at, OpenLeft(aes, p, ctx, nonce, old(a[..])[at..n]))
            case Some(plain) => len == |plain| && a[..] == Splice(old(a[..]), at, plain)
  {
    hide OpenFrom;
    hide LeftFrom;
    hide Splice;
    ghost var b0 := a[..];
    if n - at < p.TagLen() {
      SpliceMore(b0, at, [], n);
      assert [] + b0[at..n] == b0[at..n];
      return -1;
    }
    len := n - at - p.TagLen();
    var tag := a[at + len..n];
    SliceOfSlice(b0, at, n, 0, len);
    SliceOfSlice(b0, at, n, len, n - at);
    assert tag == b0[at + len..n];
    var ok := OpenInPlace(aes, p, ctx, nonce, tag, proto, a, at, len);
    if !ok {
      SpliceMore(b0, at, LeftFrom(aes, p, ctx, nonce, b0[at..at + len], b0[at..at + len], 0), n);
      len := -1;
    }
  }

  /** Encrypts a stretch of the buffer; in GCM mode also yields the tag. */
  method SealInPlace(aes: Aes, p: Params, key: Key, nonce: seq<byte>, a: array<byte>, off: nat, n: nat)
    returns (tag: seq<byte>)
    requires |nonce| <= IvSize && off + n <= a.Length
    modifies a
    ensures var c := Stream(aes, p, key, nonce, old(a[..])[off..off + n]);
            a[..] == Splice(old(a[..]), off, c) && c + tag == Seal(aes, p, key, nonce, old(a[..])[off..off + n])
  {
    ghost var before := a[..];
    StreamInPlace(aes, p, key, nonce, a, off, n);
    assert a[off..off + n] == Stream(aes, p, key, nonce, before[off..off + n]);
    if p.Gcm() {
      tag := aes.tag(p.aesBits, key, nonce, a[off..off + n]);
    } else {
      tag := [];
      assert Stream(aes, p, key, nonce, before[off..off + n]) + [] == Stream(aes, p, key, nonce, before[off..off + n]);
    }
  }
}
