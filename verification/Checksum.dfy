/** One's-complement checksums of src/crypto/packet_crypto.c and the IPv4 header patch built on them. */
module Checksum {
  import opened Bytes

  /** Sum of the big-endian 16-bit words of s; an odd last byte is padded with zero. */
  function WordSum(s: seq<byte>): nat {
    if |s| == 0 then 0
    else if |s| == 1 then Be16(s[0], 0)
    else Be16(s[0], s[1]) + WordSum(s[2..])
  }

  function Fold(sum: nat): u16
    decreases sum
  {
    if sum < 0x1_0000 then sum else Fold(sum % 0x1_0000 + sum / 0x1_0000)
  }

  /** Folding carries keeps the value modulo 0xFFFF and never turns a positive sum into zero. */
  lemma {:induction false} FoldModulo(sum: nat)
    ensures Fold(sum) % 0xFFFF == sum % 0xFFFF
    ensures Fold(sum) == 0 <==> sum == 0
    decreases sum
  {
    if sum >= 0x1_0000 {
      var q, r := sum / 0x1_0000, sum % 0x1_0000;
      FoldModulo(r + q);
      assert sum == (r + q) + q * 0xFFFF;
      ModAddMultiple(r + q, q);
    }
  }

  lemma {:induction false} ModAddMultiple(x: nat, q: nat)
    ensures (x + q * 0xFFFF) % 0xFFFF == x % 0xFFFF
  {
    if q > 0 {
      ModAddMultiple(x, q - 1);
      assert x + q * 0xFFFF == (x + (q - 1) * 0xFFFF) + 0xFFFF;
    }
  }

  lemma {:induction false} WordSumConcat(a: seq<byte>, b: seq<byte>)
    requires |a| % 2 == 0
    ensures WordSum(a + b) == WordSum(a) + WordSum(b)
  {
    if a == [] {
      assert a + b == b;
    } else {
      assert (a + b)[2..] == a[2..] + b;
      WordSumConcat(a[2..], b);
    }
  }

  lemma {:induction false} WordSumBound(s: seq<byte>)
    ensures WordSum(s) <= 0xFFFF * ((|s| + 1) / 2)
  {
    if |s| > 1 {
      WordSumBound(s[2..]);
    }
  }

  lemma WordSumShort(s: seq<byte>)
    requires 1 <= |s| <= 2
    ensures WordSum(s) == Be16(s[0], if |s| == 2 then s[1] else 0)
  {
    if |s| == 2 {
      assert s[2..] == [];
    }
  }

  /** The checksum field value for data whose words add up to sum. */
  function Complement(sum: nat): u16 {
    0xFFFF - Fold(sum)
  }

  /** A block verifies when its words, checksum included, fold to 0xFFFF (RFC 1071 section 1). */
  predicate Verifies(sum: nat) {
    Fold(sum) == 0xFFFF
  }

  lemma ComplementsUp(sum: nat, folded: u16)
    requires folded % 0xFFFF == sum % 0xFFFF && (folded == 0 <==> sum == 0)
    ensures (sum + (0xFFFF - folded)) % 0xFFFF == 0 && sum + (0xFFFF - folded) > 0
  {
    var d := sum / 0xFFFF - folded / 0xFFFF;
    assert sum - folded == d * 0xFFFF;
    assert d >= 0;
    ModAddMultiple(0, d + 1);
  }

  lemma OnlyMultiple(w: u16)
    requires w % 0xFFFF == 0 && w != 0
    ensures w == 0xFFFF
  {
  }

  /** Adding the complement of a sum to that sum always verifies. */
  lemma ComplementVerifies(sum: nat)
    ensures Verifies(sum + Complement(sum))
  {
    hide Fold;
    FoldModulo(sum);
    FoldModulo(sum + Complement(sum));
    ComplementsUp(sum, Fold(sum));
    OnlyMultiple(Fold(sum + Complement(sum)));
  }

  function IpChecksum(hdr: seq<byte>): u16 {
    Complement(WordSum(hdr))
  }

  /** crypto_calc_ip_checksum: the word loop and the carry-fold loop. */
  method CalcIpChecksum(a: array<byte>, off: nat, hdrLen: nat) returns (c: u16)
    requires off + hdrLen <= a.Length && hdrLen <= 0x1_0000
    ensures c == IpChecksum(a[off..off + hdrLen])
  {
    ghost var s := a[off..off + hdrLen];
    var sum: u32 := 0;
    var i := 0;
    assert WordSum(s[..0]) == 0;
    hide WordSum;
    hide Fold;
    while i < hdrLen
      invariant 0 <= i <= hdrLen + 1 && i % 2 == 0
      invariant sum == WordSum(s[..Clip(i, hdrLen)])
    {
      var word: u16 := Be16(a[off + i], if i + 1 < hdrLen then a[off + i + 1] else 0);
      WordSumNext(s, i);
      WordSumBound(s[..Clip(i + 2, hdrLen)]);
      sum := sum + word;
      i := i + 2;
    }
    assert s[..hdrLen] == s;
    c := FoldAndComplement(sum);
  }

  function Clip(i: nat, n: nat): (c: nat)
    ensures c <= n
  {
    if i <= n then i else n
  }

  /** One turn of the checksum loop. */
  lemma WordSumNext(s: seq<byte>, i: nat)
    requires i < |s| && i % 2 == 0
    ensures WordSum(s[..Clip(i + 2, |s|)]) == WordSum(s[..i]) + Be16(s[i], if i + 1 < |s| then s[i + 1] else 0)
  {
    hide Fold;
    var next := Clip(i + 2, |s|);
    assert s[..next] == s[..i] + s[i..next];
    WordSumConcat(s[..i], s[i..next]);
    WordSumShort(s[i..next]);
  }

  method FoldAndComplement(sum0: u32) returns (c: u16)
    ensures c == Complement(sum0)
  {
    var sum := sum0;
    while sum / 0x1_0000 != 0
      invariant Fold(sum) == Fold(sum0)
      decreases sum
    {
      sum := sum % 0x1_0000 + sum / 0x1_0000;
    }
    c := 0xFFFF - sum;
  }

  // ---- IPv4 header patch ----

  /** The header with its checksum field cleared and its total-length field set. */
  function Unsummed(s: seq<byte>, l3: nat, total: u16): (r: seq<byte>)
    requires l3 + 20 <= |s|
    ensures |r| == |s|
  {
    s[l3 + 2 := Hi(total)][l3 + 3 := Lo(total)][l3 + 10 := 0][l3 + 11 := 0]
  }

  /** s with the IPv4 header at l3 given a new total length and a fresh checksum. */
  function PatchIpv4(s: seq<byte>, l3: nat, ihl: nat, total: u16): (r: seq<byte>)
    requires 20 <= ihl && l3 + ihl <= |s|
    ensures |r| == |s|
  {
    var t: seq<byte> := Unsummed(s, l3, total);
    var c := IpChecksum(t[l3..l3 + ihl]);
    t[l3 + 10 := Hi(c)][l3 + 11 := Lo(c)]
  }

  /** Apart from length and checksum a patch leaves every octet alone. */
  lemma PatchOthers(s: seq<byte>, l3: nat, ihl: nat, total: u16, i: nat)
    requires 20 <= ihl && l3 + ihl <= |s| && i < |s|
    requires i != l3 + 2 && i != l3 + 3 && i != l3 + 10 && i != l3 + 11
    ensures PatchIpv4(s, l3, ihl, total)[i] == s[i]
  {
  }

  /** frag_patch_ipv4, l3_patch_ipv4 and l4_fix_ipv4_totlen_and_cksum, in place. */
  method PatchIpv4InPlace(a: array<byte>, l3: nat, ihl: nat, total: u16)
    requires 20 <= ihl <= 60 && l3 + ihl <= a.Length
    modifies a
    ensures a[..] == PatchIpv4(old(a[..]), l3, ihl, total)
  {
    a[l3 + 2] := Hi(total);
    a[l3 + 3] := Lo(total);
    a[l3 + 10] := 0;
    a[l3 + 11] := 0;
    assert a[..] == Unsummed(old(a[..]), l3, total);
    assert a[l3..l3 + ihl] == a[..][l3..l3 + ihl];
    var c := CalcIpChecksum(a, l3, ihl);
    a[l3 + 10] := Hi(c);
    a[l3 + 11] := Lo(c);
  }

  /** Writing a word into a zeroed even-offset field adds that word to the sum. */
  lemma WordSumField(s: seq<byte>, at: nat, hi: byte, lo: byte)
    requires at % 2 == 0 && at + 2 <= |s| && s[at] == 0 && s[at + 1] == 0
    ensures WordSum(s[at := hi][at + 1 := lo]) == WordSum(s) + Be16(hi, lo)
  {
    var a, b := s[..at], s[at + 2..];
    assert s == a + ([0, 0] + b);
    assert s[at := hi][at + 1 := lo] == a + ([hi, lo] + b);
    WordSumConcat(a, [0, 0] + b);
    WordSumConcat(a, [hi, lo] + b);
    assert ([0, 0] + b)[2..] == b && ([hi, lo] + b)[2..] == b;
  }

  /** The octets at even offsets count 256 fold, those at odd ones once. */
  lemma {:induction false} WordSumOctet(s: seq<byte>, i: nat, v: byte)
    requires i < |s|
    ensures var weight := if i % 2 == 0 then 256 else 1;
            WordSum(s[i := v]) + weight * s[i] == WordSum(s) + weight * v
  {
    if i >= 2 {
      WordSumOctet(s[2..], i - 2, v);
      assert s[i := v][2..] == s[2..][i - 2 := v];
    } else {
      assert |s| > 2 ==> s[i := v][2..] == s[2..];
    }
  }

  /** A patched header carries the new length and sums to 0xFFFF (RFC 791 section 3.1). */
  lemma PatchedHeaderVerifies(s: seq<byte>, l3: nat, ihl: nat, total: u16)
    requires 20 <= ihl && l3 + ihl <= |s|
    ensures var h := PatchIpv4(s, l3, ihl, total)[l3..l3 + ihl];
            Verifies(WordSum(h)) && Be16(h[2], h[3]) == total
  {
    hide WordSum;
    hide Fold;
    var u: seq<byte> := Unsummed(s, l3, total)[l3..l3 + ihl];
    var c := IpChecksum(u);
    assert PatchIpv4(s, l3, ihl, total)[l3..l3 + ihl] == u[10 := Hi(c)][11 := Lo(c)];
    WordSumField(u, 10, Hi(c), Lo(c));
    ComplementVerifies(WordSum(u));
  }

  /** Patching changes nothing exactly when length and checksum already have the patched values. */
  lemma PatchFixedPoint(s: seq<byte>, l3: nat, ihl: nat, total: u16)
    requires 20 <= ihl && l3 + ihl <= |s|
    ensures PatchIpv4(s, l3, ihl, total) == s <==>
            && Be16(s[l3 + 2], s[l3 + 3]) == total
            && Be16(s[l3 + 10], s[l3 + 11]) == IpChecksum(Unsummed(s, l3, total)[l3..l3 + ihl])
  {
    hide WordSum;
    hide Fold;
    var c := IpChecksum(Unsummed(s, l3, total)[l3..l3 + ihl]);
    var r := PatchIpv4(s, l3, ihl, total);
    PatchFields(s, l3, ihl, total, c);
    Be16Unique(s[l3 + 2], s[l3 + 3], total);
    Be16Unique(s[l3 + 10], s[l3 + 11], c);
    if Be16(s[l3 + 2], s[l3 + 3]) == total && Be16(s[l3 + 10], s[l3 + 11]) == c {
      forall i | 0 <= i < |s|
        ensures r[i] == s[i]
      {
        if i != l3 + 2 && i != l3 + 3 && i != l3 + 10 && i != l3 + 11 {
          PatchOthers(s, l3, ihl, total, i);
        }
      }
    }
  }

  lemma PatchFields(s: seq<byte>, l3: nat, ihl: nat, total: u16, c: u16)
    requires 20 <= ihl && l3 + ihl <= |s|
    requires c == IpChecksum(Unsummed(s, l3, total)[l3..l3 + ihl])
    ensures var r := PatchIpv4(s, l3, ihl, total);
            r[l3 + 2] == Hi(total) && r[l3 + 3] == Lo(total) && r[l3 + 10] == Hi(c) && r[l3 + 11] == Lo(c)
  {
  }

  /** Verification in plain arithmetic. */
  lemma VerifiesExactly(sum: nat)
    ensures Verifies(sum) <==> sum > 0 && sum % 0xFFFF == 0
  {
    hide Fold;
    FoldModulo(sum);
    if Fold(sum) % 0xFFFF == 0 && Fold(sum) != 0 {
      OnlyMultiple(Fold(sum));
    }
  }

  /** A checksum field verifies when it holds the checksum, or 0xFFFF for a checksum of zero. */
  lemma FieldVerifies(sum: nat, field: u16)
    requires sum > 0
    ensures field == Complement(sum) <==> Verifies(sum + field) && field != 0xFFFF
  {
    hide Fold;
    FoldModulo(sum);
    VerifiesExactly(sum + field);
    var q := sum / 0xFFFF - Fold(sum) / 0xFFFF;
    assert sum - Fold(sum) == q * 0xFFFF;
    assert q >= 0;
    ModAddMultiple(Fold(sum) + field, q);
  }

  lemma WordSumPositive(s: seq<byte>)
    requires |s| >= 2 && s[0] > 0
    ensures WordSum(s) > 0
  {
  }

  /** r differs from s at most in length and checksum of the header at l3. */
  predicate SameApart(s: seq<byte>, r: seq<byte>, l3: nat) {
    && |r| == |s|
    && forall i :: 0 <= i < |s| && i != l3 + 2 && i != l3 + 3 && i != l3 + 10 && i != l3 + 11 ==> r[i] == s[i]
  }

  /** The header's words add up to a multiple of 0xFFFF, and zero is not written as 0xFFFF. */
  predicate Summed(h: seq<byte>)
    requires |h| >= 20
  {
    WordSum(h) % 0xFFFF == 0 && !(h[10] == h[11] == 255)
  }

  /** r is s with a total length of total and the checksum that goes with it. */
  predicate Stamped(s: seq<byte>, r: seq<byte>, l3: nat, ihl: nat, total: u16)
    requires 20 <= ihl && l3 + ihl <= |s|
  {
    SameApart(s, r, l3) && r[l3 + 2] as int * 256 + r[l3 + 3] as int == total && Summed(r[l3..l3 + ihl])
  }

  /** With the length in place, a header is summed exactly when its field holds the checksum. */
  lemma SummedExactly(u: seq<byte>, hi: byte, lo: byte)
    requires |u| >= 20 && u[0] > 0 && u[10] == u[11] == 0
    ensures Summed(u[10 := hi][11 := lo]) <==> Be16(hi, lo) == IpChecksum(u)
  {
    hide Fold;
    hide WordSum;
    hide Be16;
    var h: seq<byte> := u[10 := hi][11 := lo];
    assert h[0] > 0;
    WordSumPositive(u);
    WordSumPositive(h);
    WordSumField(u, 10, hi, lo);
    FieldVerifies(WordSum(u), Be16(hi, lo));
    VerifiesExactly(WordSum(h));
    Be16Unique(hi, lo, 0xFFFF);
  }

  lemma Be16Is(hi: byte, lo: byte)
    ensures Be16(hi, lo) == hi as int * 256 + lo as int
  {
  }

  lemma StampedHeader(s: seq<byte>, r: seq<byte>, l3: nat, ihl: nat, total: u16)
    requires 20 <= ihl && l3 + ihl <= |s| && SameApart(s, r, l3)
    requires r[l3 + 2] == Hi(total) && r[l3 + 3] == Lo(total)
    ensures r[l3..l3 + ihl] == Unsummed(s, l3, total)[l3..l3 + ihl][10 := r[l3 + 10]][11 := r[l3 + 11]]
  {
    hide Hi;
    hide Lo;
    var u := Unsummed(s, l3, total);
    var h, v := r[l3..l3 + ihl], u[l3..l3 + ihl][10 := r[l3 + 10]][11 := r[l3 + 11]];
    forall k | 0 <= k < ihl
      ensures h[k] == v[k]
    {
      assert h[k] == r[l3 + k];
    }
  }

  /** A patch stamps the header, and nothing else does: the version octet keeps the sum from being zero. */
  lemma PatchStampsExactly(s: seq<byte>, r: seq<byte>, l3: nat, ihl: nat, total: u16)
    requires 20 <= ihl && l3 + ihl <= |s| && s[l3] > 0
    ensures r == PatchIpv4(s, l3, ihl, total) <==> Stamped(s, r, l3, ihl, total)
  {
    hide WordSum;
    hide Summed;
    hide IpChecksum;
    hide Be16;
    var p := PatchIpv4(s, l3, ihl, total);
    var u: seq<byte> := Unsummed(s, l3, total)[l3..l3 + ihl];
    var c := IpChecksum(u);
    PatchFields(s, l3, ihl, total, c);
    if SameApart(s, r, l3) {
      Be16Unique(r[l3 + 2], r[l3 + 3], total);
      Be16Unique(r[l3 + 10], r[l3 + 11], c);
      SummedExactly(u, r[l3 + 10], r[l3 + 11]);
      if r[l3 + 2] == Hi(total) && r[l3 + 3] == Lo(total) {
        StampedHeader(s, r, l3, ihl, total);
      }
      Be16Is(r[l3 + 2], r[l3 + 3]);
    }
  }

  /** Only the last patch of a header counts. */
  lemma PatchTwice(s: seq<byte>, l3: nat, ihl: nat, t1: u16, t2: u16)
    requires 20 <= ihl && l3 + ihl <= |s|
    ensures PatchIpv4(PatchIpv4(s, l3, ihl, t1), l3, ihl, t2) == PatchIpv4(s, l3, ihl, t2)
  {
    assert Unsummed(PatchIpv4(s, l3, ihl, t1), l3, t2) == Unsummed(s, l3, t2);
  }

  /** An octet outside length and checksum can be set before or after the header was first patched. */
  lemma PatchAfterSet(s: seq<byte>, l3: nat, ihl: nat, t1: u16, t2: u16, i: nat, v: byte)
    requires 20 <= ihl && l3 + ihl <= |s| && i < |s|
    requires i != l3 + 2 && i != l3 + 3 && i != l3 + 10 && i != l3 + 11
    ensures PatchIpv4(PatchIpv4(s, l3, ihl, t1)[i := v], l3, ihl, t2) == PatchIpv4(s[i := v], l3, ihl, t2)
  {
    hide IpChecksum;
    assert Unsummed(PatchIpv4(s, l3, ihl, t1)[i := v], l3, t2) == Unsummed(s[i := v], l3, t2);
  }

  /** Patching reads and writes only the header. */
  lemma PatchPrefix(a: seq<byte>, b: seq<byte>, l3: nat, ihl: nat, total: u16)
    requires 20 <= ihl && l3 + ihl <= |a|
    ensures PatchIpv4(a + b, l3, ihl, total) == PatchIpv4(a, l3, ihl, total) + b
  {
    assert Unsummed(a + b, l3, total)[l3..l3 + ihl] == Unsummed(a, l3, total)[l3..l3 + ihl];
  }

  /** The prefix of a patched buffer is the patched prefix. */
  lemma PatchedPrefix(b: seq<byte>, n: nat, a: seq<byte>, rest: seq<byte>, l3: nat, ihl: nat, total: u16)
    requires 20 <= ihl && l3 + ihl <= |a| && n <= |b| && b[..n] == a + rest
    ensures PatchIpv4(b, l3, ihl, total)[..n] == PatchIpv4(a, l3, ihl, total) + rest
  {
    hide PatchIpv4;
    assert b == a + (rest + b[n..]);
    PatchPrefix(a, rest + b[n..], l3, ihl, total);
  }

  /** Patches the header of a packet that fills the first off octets of a buffer. */
  method PatchPacket(out: array<byte>, off: nat, ihl: nat, ghost flat: seq<byte>)
    requires 20 <= ihl <= 60 && 14 + ihl <= off <= out.Length && out[..off] == flat
    modifies out
    ensures out[..off] == PatchIpv4(flat, 14, ihl, (off - 14) % 0x1_0000)
  {
    hide PatchIpv4;
    ghost var b := out[..];
    var total := (off - 14) % 0x1_0000;
    PatchIpv4InPlace(out, 14, ihl, total);
    PatchedPrefixAlone(b, off, flat, 14, ihl, total);
  }

  lemma PatchedPrefixAlone(b: seq<byte>, n: nat, a: seq<byte>, l3: nat, ihl: nat, total: u16)
    requires 20 <= ihl && l3 + ihl <= |a| && n <= |b| && b[..n] == a
    ensures PatchIpv4(b, l3, ihl, total)[..n] == PatchIpv4(a, l3, ihl, total)
  {
    hide PatchIpv4;
    assert a == a + [];
    PatchedPrefix(b, n, a, [], l3, ihl, total);
    assert PatchIpv4(a, l3, ihl, total) + [] == PatchIpv4(a, l3, ihl, total);
  }
}
