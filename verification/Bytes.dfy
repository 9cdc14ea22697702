/** Octets, fixed-width words, and the buffer primitives the packet code is written with. */
module Bytes {

  type byte = x: int | 0 <= x < 256
  type u16 = x: int | 0 <= x < 0x1_0000
  type u32 = x: int | 0 <= x < 0x1_0000_0000
  type u64 = x: int | 0 <= x < 0x1_0000_0000_0000_0000

  datatype Option<+T> = None | Some(value: T)

  /** The big-endian 16-bit word with the given octets. */
  function Be16(hi: byte, lo: byte): u16 {
    hi as int * 256 + lo as int
  }

  function Hi(w: u16): byte {
    w / 256
  }

  function Lo(w: u16): byte {
    w % 256
  }

  lemma Be16Unique(hi: byte, lo: byte, w: u16)
    ensures Be16(hi, lo) == w <==> hi == Hi(w) && lo == Lo(w)
  {
  }

  function Swap16(w: u16): u16 {
    Be16(Lo(w), Hi(w))
  }

  function Join(high: u16, low: u16): u32 {
    high * 0x1_0000 + low
  }

  /** ntohl on a little-endian machine: the four octets in reverse. */
  function Ntohl(x: u32): u32 {
    Join(Swap16(x % 0x1_0000), Swap16(x / 0x1_0000))
  }

  lemma Swap16Twice(w: u16)
    ensures Swap16(Swap16(w)) == w
  {
    Be16Unique(Lo(w), Hi(w), Swap16(w));
    Be16Unique(Hi(w), Lo(w), w);
  }

  lemma JoinParts(high: u16, low: u16)
    ensures Join(high, low) % 0x1_0000 == low && Join(high, low) / 0x1_0000 == high
  {
  }

  lemma JoinOfParts(x: u32)
    ensures Join(x / 0x1_0000, x % 0x1_0000) == x
  {
  }

  lemma NtohlTwice(x: u32)
    ensures Ntohl(Ntohl(x)) == x
  {
    hide Swap16;
    JoinParts(Swap16(x % 0x1_0000), Swap16(x / 0x1_0000));
    hide Join;
    Swap16Twice(x % 0x1_0000);
    Swap16Twice(x / 0x1_0000);
    JoinOfParts(x);
  }

  function Pow2(n: nat): nat {
    if n == 0 then 1 else 2 * Pow2(n - 1)
  }

  function Half(n: nat): nat { n / 2 }

  function Odd(n: nat): (r: nat)
    ensures r < 2
  {
    n % 2
  }

  /** Bitwise exclusive or of two n-bit numbers. */
  function XorBits(a: nat, b: nat, n: nat): (r: nat)
    ensures r < Pow2(n)
    decreases n
  {
    if n == 0 then 0 else Odd(a + b) + 2 * XorBits(Half(a), Half(b), n - 1)
  }

  lemma XorOfNoBits(a: nat, b: nat)
    requires a < Pow2(0)
    ensures XorBits(XorBits(a, b, 0), b, 0) == a
  {
  }

  lemma XorBitsOnce(a: nat, b: nat, n: nat)
    requires n > 0
    ensures XorBits(a, b, n) == Odd(a + b) + 2 * XorBits(Half(a), Half(b), n - 1)
    ensures a < Pow2(n) ==> Half(a) < Pow2(n - 1)
  {
  }

  lemma {:induction false} XorBitsCancels(a: nat, b: nat, n: nat)
    requires a < Pow2(n)
    ensures XorBits(XorBits(a, b, n), b, n) == a
    decreases n
  {
    hide Half;
    hide Odd;
    hide XorBits;
    hide Pow2;
    if n == 0 {
      XorOfNoBits(a, b);
    } else {
      XorBitsOnce(a, b, n);
      XorBitsOnce(XorBits(a, b, n), b, n);
      BitAndRest(a, b, XorBits(Half(a), Half(b), n - 1));
      XorBitsCancels(Half(a), Half(b), n - 1);
    }
  }

  lemma BitAndRest(a: nat, b: nat, rest: nat)
    ensures var x := Odd(a + b) + 2 * rest;
            Half(x) == rest && Odd(x + b) + 2 * Half(a) == a
  {
    Halves(Odd(a + b), rest);
    SameParity(Odd(a + b) + 2 * rest, a, b);
  }

  lemma Halves(bit: nat, rest: nat)
    requires bit < 2
    ensures Half(bit + 2 * rest) == rest && Odd(bit + 2 * rest) == bit
  {
  }

  lemma SameParity(x: nat, a: nat, b: nat)
    requires Odd(x) == Odd(a + b)
    ensures Odd(x + b) == Odd(a)
  {
  }

  lemma Pow2Of8()
    ensures Pow2(8) == 256
  {
    assert Pow2(4) == 16;
  }

  function Xor(a: byte, b: byte): byte {
    Pow2Of8();
    XorBits(a, b, 8)
  }

  /** XOR with the same octet twice is the identity: the law stream ciphers rest on. */
  lemma XorCancels(a: byte, b: byte)
    ensures Xor(Xor(a, b), b) == a
  {
    Pow2Of8();
    XorBitsCancels(a, b, 8);
  }

  /** Bit k of x. */
  function Bit(x: nat, k: nat): nat {
    if k == 0 then x % 2 else Bit(x / 2, k - 1)
  }

  /** Each bit of an exclusive or is one exactly when the two bits differ. */
  lemma XorBit(a: byte, b: byte, k: nat)
    requires k < 8
    ensures Bit(Xor(a, b), k) == if Bit(a, k) == Bit(b, k) then 0 else 1
  {
    hide Pow2;
    BitOfXorBits(a, b, 8, k);
  }

  lemma {:induction false} BitOfXorBits(a: nat, b: nat, n: nat, k: nat)
    requires k < n
    ensures Bit(XorBits(a, b, n), k) == if Bit(a, k) == Bit(b, k) then 0 else 1
    decreases n
  {
    hide Pow2;
    hide Half;
    hide Odd;
    hide XorBits;
    hide Bit;
    var rest := XorBits(Half(a), Half(b), n - 1);
    XorBitsOnce(a, b, n);
    Halves(Odd(a + b), rest);
    BitOnce(XorBits(a, b, n), k);
    BitOnce(a, k);
    BitOnce(b, k);
    OddOfSum(a, b);
    if k > 0 {
      BitOfXorBits(Half(a), Half(b), n - 1, k - 1);
    }
  }

  lemma BitOnce(x: nat, k: nat)
    ensures Bit(x, k) == if k == 0 then Odd(x) else Bit(Half(x), k - 1)
  {
  }

  lemma OddOfSum(a: nat, b: nat)
    ensures Odd(a + b) == if Odd(a) == Odd(b) then 0 else 1
  {
  }

  /** s with t written over it at off. */
  function Splice(s: seq<byte>, off: nat, t: seq<byte>): (r: seq<byte>)
    requires off + |t| <= |s|
    ensures |r| == |s|
  {
    s[..off] + t + s[off + |t|..]
  }

  lemma CutThree(a: seq<byte>, b: seq<byte>, c: seq<byte>)
    ensures var s := a + b + c;
            s[..|a|] == a && s[|a|..|a| + |b|] == b && s[|a| + |b|..] == c
  {
  }

  /**
   * The data c at off moved |hdr| octets up, a trailer put behind it and hdr into the gap:
   * from the front on, the buffer then reads front, hdr, c, trailer.
   */
  lemma ShiftLayout(b: seq<byte>, off: nat, c: seq<byte>, hdr: seq<byte>, trailer: seq<byte>)
    requires off + |hdr| + |c| + |trailer| <= |b|
    ensures var b1 := Splice(b, off, c);
            var b2 := Splice(b1, off + |hdr|, c);
            var b3 := Splice(b2, off + |hdr| + |c|, trailer);
            Splice(b3, off, hdr)[..off + |hdr| + |c| + |trailer|] == b[..off] + hdr + (c + trailer)
  {
  }

  lemma SliceOfPrefix(b: seq<byte>, n: nat, i: nat, j: nat)
    requires i <= j <= n <= |b|
    ensures b[..n][i..j] == b[i..j]
  {
  }

  lemma SliceOfSlice(b: seq<byte>, i: nat, j: nat, x: nat, y: nat)
    requires i <= j <= |b| && x <= y <= j - i
    ensures b[i..j][x..y] == b[i + x..i + y]
  {
    var l, r := b[i..j][x..y], b[i + x..i + y];
    assert |l| == |r|;
    assert forall k :: 0 <= k < |l| ==> l[k] == r[k];
  }

  lemma SpliceOver(b: seq<byte>, off: nat, x: seq<byte>, y: seq<byte>)
    requires off + |x| <= |b| && |x| == |y|
    ensures Splice(Splice(b, off, x), off, y) == Splice(b, off, y)
  {
  }

  /** Data put at from and then copied down to at follows the octets before at. */
  lemma CloseGap(b: seq<byte>, at: nat, from: nat, data: seq<byte>)
    requires at <= from && from + |data| <= |b|
    ensures Splice(Splice(b, from, data), at, data)[..at + |data|] == b[..at] + data
  {
  }

  /** Writing more of what is there already changes nothing. */
  lemma SpliceMore(b: seq<byte>, at: nat, x: seq<byte>, n: nat)
    requires at + |x| <= n <= |b|
    ensures Splice(b, at, x) == Splice(b, at, x + b[at + |x|..n])
    ensures x == [] ==> Splice(b, at, x) == b
  {
  }

  lemma SpliceSelf(b: seq<byte>, off: nat, t: seq<byte>)
    requires off + |t| <= |b|
    ensures Splice(b, off, t)[off..off + |t|] == t
    ensures Splice(b, off, t)[..off] == b[..off]
    ensures Splice(b, off, []) == b
  {
  }

  /** memcpy into a buffer. */
  method Copy(a: array<byte>, dst: nat, t: seq<byte>)
    requires dst + |t| <= a.Length
    modifies a
    ensures a[..] == Splice(old(a[..]), dst, t)
  {
    forall i | 0 <= i < |t| {
      a[dst + i] := t[i];
    }
  }

  /** memmove within a buffer; the two ranges may overlap. */
  method Move(a: array<byte>, dst: nat, src: nat, n: nat)
    requires dst + n <= a.Length && src + n <= a.Length
    modifies a
    ensures a[..] == Splice(old(a[..]), dst, old(a[..])[src..src + n])
  {
    forall i | 0 <= i < n {
      a[dst + i] := a[src + i];
    }
  }
}
