/**
 * Frames of a queue's UMEM: receive frames at the bottom, transmit frames in the upper half
 * (src/core/interface.c), against the sizes config_validate lets through (src/db/config.c).
 */
module Umem {
  import opened Bytes
  import opened Policy
  import opened Remainders
  import opened XskRing

  const Wide := 0x1_0000_0000_0000_0000

  // ---- layout ----

  /** iface->umem_size / iface->frame_size, kept in 32 bits. */
  function FrameCount(umemMb: u32, frameSize: u32): nat
    requires frameSize > 0
  {
    Mod(Div(umemMb * Mebi, frameSize), Wrap)
  }

  /** Where the initial fill puts receive frame i; the product is taken in 32 bits. */
  function RxAddr(i: nat, frameSize: u32): nat {
    Mod(i * frameSize, Wrap)
  }

  /** The transmit frame of a slot when base frames are set aside below it. */
  function TxFrame(slot: nat, base: nat): nat
    requires base > 0
  {
    Mod(slot, base) + base
  }

  function TxAddr(slot: nat, base: nat, frameSize: u32): nat
    requires base > 0
  {
    TxFrame(slot, base) * frameSize
  }

  predicate Apart(a: nat, b: nat, size: nat) {
    a + size <= b || b + size <= a
  }

  /** Receive and transmit frames never overlap. */
  ghost predicate Disjoint(ringSize: nat, base: nat, frameSize: u32)
    requires base > 0
  {
    forall i, slot: nat :: 0 <= i < ringSize ==> Apart(RxAddr(i, frameSize), TxAddr(slot, base, frameSize), frameSize)
  }

  lemma Ordered(a: nat, b: nat, k: nat)
    requires a < b
    ensures a * k + k <= b * k
  {
    var d := b - a - 1;
    Distribute(a, d, k);
    assert d * k >= 0;
  }

  lemma Distribute(a: nat, d: nat, k: nat)
    ensures (a + 1 + d) * k == a * k + k + d * k
  {
  }

  lemma RxAddrIsExact(i: nat, ringSize: nat, frameSize: u32)
    requires i < ringSize && ringSize * frameSize < Wrap
    ensures RxAddr(i, frameSize) == i * frameSize
  {
    hide Mod;
    Ordered(i, ringSize, frameSize);
    ModOfSmall(i * frameSize, Wrap);
  }

  /** They never overlap exactly when the receive frames fit below the transmit base. */
  lemma DisjointExactly(ringSize: nat, base: nat, frameSize: u32)
    requires base > 0 && frameSize > 0 && ringSize * frameSize < Wrap
    ensures Disjoint(ringSize, base, frameSize) <==> ringSize <= base
  {
    hide Mod;
    hide RxAddr;
    if ringSize <= base {
      forall i, slot: nat | 0 <= i < ringSize
        ensures Apart(RxAddr(i, frameSize), TxAddr(slot, base, frameSize), frameSize)
      {
        RxAddrIsExact(i, ringSize, frameSize);
        Ordered(i, TxFrame(slot, base), frameSize);
      }
    } else {
      RxAddrIsExact(base, ringSize, frameSize);
      ModOfSmall(0, base);
      assert TxAddr(0, base, frameSize) == base * frameSize;
      assert !Apart(RxAddr(base, frameSize), TxAddr(0, base, frameSize), frameSize);
    }
  }

  /** With half the frame count as base, every transmit frame lies inside the UMEM. */
  lemma TxInBounds(umemMb: u32, frameSize: u32, slot: nat)
    requires frameSize > 0 && FrameCount(umemMb, frameSize) / 2 > 0
    ensures TxAddr(slot, FrameCount(umemMb, frameSize) / 2, frameSize) + frameSize <= umemMb * Mebi
  {
    hide Mod;
    hide Div;
    var all := Div(umemMb * Mebi, frameSize);
    var base := FrameCount(umemMb, frameSize) / 2;
    DivMod(umemMb * Mebi, frameSize);
    ModAtMost(all, Wrap);
    assert TxFrame(slot, base) < all;
    Ordered(TxFrame(slot, base), all, frameSize);
  }

  lemma ModAtMost(n: nat, m: nat)
    requires m > 0
    ensures Mod(n, m) <= n
  {
    hide Mod;
    if n < m {
      ModOfSmall(n, m);
    }
  }

  /** And so does every receive frame, when the receive frames fit below the base. */
  lemma RxInBounds(umemMb: u32, frameSize: u32, ringSize: nat, i: nat)
    requires frameSize > 0 && i < ringSize <= FrameCount(umemMb, frameSize) / 2 && ringSize * frameSize < Wrap
    ensures RxAddr(i, frameSize) + frameSize <= umemMb * Mebi
  {
    hide Mod;
    hide Div;
    var all := Div(umemMb * Mebi, frameSize);
    DivMod(umemMb * Mebi, frameSize);
    ModAtMost(all, Wrap);
    RxAddrIsExact(i, ringSize, frameSize);
    Ordered(i, all, frameSize);
  }

  /** What a program that keeps receive and transmit frames in one UMEM needs of its sizes. */
  ghost predicate LayoutSafe(umemMb: u32, ringSize: u32, frameSize: u32)
    requires frameSize > 0
  {
    var base := FrameCount(umemMb, frameSize) / 2;
    && base > 0 && Disjoint(ringSize, base, frameSize)
    && (forall i :: 0 <= i < ringSize ==> RxAddr(i, frameSize) + frameSize <= umemMb * Mebi)
    && (forall slot: nat :: TxAddr(slot, base, frameSize) + frameSize <= umemMb * Mebi)
  }

  /** The need of a ring pair in octets, when dividing it by a MiB loses nothing that matters. */
  predicate NeedIsExact(ringSize: u32, frameSize: u32) {
    var need := ringSize * 2 * frameSize;
    need < Wrap && (need < Mebi || Mod(need, Mebi) == 0)
  }

  /**
   * Sizes that config_validate accepts leave room for the ring below the transmit half, provided
   * its 32-bit product and its division are exact and the frame count fits 32 bits.
   */
  lemma AcceptedSizesFit(umemMb: u32, ringSize: u32, frameSize: u32)
    requires frameSize > 0 && UmemAccepted(umemMb, ringSize, frameSize) && NeedIsExact(ringSize, frameSize)
    requires Div(umemMb * Mebi, frameSize) < Wrap
    ensures 0 < ringSize <= FrameCount(umemMb, frameSize) / 2
  {
    var need := ringSize * 2 * frameSize;
    ModOfSmall(need, Wrap);
    assert umemMb * Mebi >= need;
    hide Mod;
    hide Div;
    var all := Div(umemMb * Mebi, frameSize);
    ModOfSmall(all, Wrap);
    DivMod(umemMb * Mebi, frameSize);
    if all < ringSize * 2 {
      Ordered(all, ringSize * 2, frameSize);
    }
  }

  /** Accepted sizes give disjoint frames inside the UMEM. */
  lemma AcceptedSizesAreSafe(umemMb: u32, ringSize: u32, frameSize: u32)
    requires frameSize > 0 && UmemAccepted(umemMb, ringSize, frameSize) && NeedIsExact(ringSize, frameSize)
    requires Div(umemMb * Mebi, frameSize) < Wrap
    ensures LayoutSafe(umemMb, ringSize, frameSize)
  {
    hide Disjoint;
    hide RxAddr;
    hide TxAddr;
    hide FrameCount;
    hide UmemAccepted;
    AcceptedSizesFit(umemMb, ringSize, frameSize);
    var base := FrameCount(umemMb, frameSize) / 2;
    Ordered(0, 2, ringSize * frameSize);
    assert ringSize * 2 * frameSize == 2 * (ringSize * frameSize);
    DisjointExactly(ringSize, base, frameSize);
    forall i | 0 <= i < ringSize
      ensures RxAddr(i, frameSize) + frameSize <= umemMb * Mebi
    {
      RxInBounds(umemMb, frameSize, ringSize, i);
    }
    forall slot: nat
      ensures TxAddr(slot, base, frameSize) + frameSize <= umemMb * Mebi
    {
      TxInBounds(umemMb, frameSize, slot);
    }
  }

  // ---- frames of 4096 octets ----

  const LargestRing := 0x4_0000  // DEFAULT_RING_SIZE

  /** What divides a power of two is one. */
  lemma {:induction false} DividesPow2(a: nat, b: nat, k: nat) returns (j: nat)
    requires a * b == Pow2(k)
    ensures a == Pow2(j)
    decreases k
  {
    if a == 1 {
      j := 0;
    } else if k == 0 {
      FactorsOfOne(a, b);
      assert false;
    } else if a % 2 == 0 {
      HalfTimes(a / 2, b);
      j := DividesPow2(a / 2, b, k - 1);
      j := j + 1;
    } else {
      OddTimes(a / 2, b);
      HalfTimes(b / 2, a);
      j := DividesPow2(a, b / 2, k - 1);
    }
  }

  lemma FactorsOfOne(a: nat, b: nat)
    requires a * b == 1
    ensures a == 1
  {
    if a >= 2 && b >= 1 {
      Ordered(1, a, b);
    }
  }

  lemma HalfTimes(h: nat, b: nat)
    ensures (2 * h) * b == 2 * (h * b) && b * (2 * h) == 2 * (b * h)
  {
  }

  lemma OddTimes(h: nat, b: nat)
    requires ((2 * h + 1) * b) % 2 == 0
    ensures b % 2 == 0
  {
    assert (2 * h + 1) * b == 2 * (h * b) + b;
  }

  lemma Pow2Splits(j: nat, n: nat)
    ensures Pow2(n + j) == Pow2(n) * Pow2(j)
  {
    if n > 0 {
      Pow2Splits(j, n - 1);
      HalfTimes(Pow2(n - 1), Pow2(j));
    }
  }

  lemma {:induction false} Pow2Grows(i: nat, j: nat)
    requires i <= j
    ensures Pow2(i) <= Pow2(j)
  {
    if i < j {
      Pow2Grows(i, j - 1);
    }
  }

  lemma Pow2Values()
    ensures Pow2(7) == 128 && Pow2(18) == LargestRing && Pow2(19) == 2 * LargestRing && Pow2(32) == Wrap
  {
    assert Pow2(4) == 16;
    Pow2Splits(4, 3);
    Pow2Splits(4, 4);
    Pow2Splits(8, 8);
    Pow2Splits(16, 2);
    Pow2Splits(18, 1);
    Pow2Splits(16, 16);
  }

  lemma SizeIsPow2(size: nat) returns (j: nat)
    requires SizeOk(size)
    ensures size == Pow2(j)
  {
    hide Pow2;
    hide Mod;
    hide Div;
    DivMod(Wrap, size);
    Pow2Values();
    Commutes(Div(Wrap, size), size);
    j := DividesPow2(size, Div(Wrap, size), 32);
  }

  lemma Commutes(a: nat, b: nat)
    ensures a * b == b * a
  {
  }

  /** A ring below 128 entries needs less than a MiB; a larger one needs whole MiB. */
  lemma RingNeedIsExact(ringSize: u32)
    requires SizeOk(ringSize) && ringSize <= LargestRing
    ensures NeedIsExact(ringSize, DefaultFrameSize)
  {
    hide Pow2;
    hide Mod;
    if ringSize >= 128 {
      var j := SizeIsPow2(ringSize);
      Pow2Values();
      if j < 7 {
        Pow2Grows(j, 7);
        ModOfMultiple(1, Mebi);
      } else {
        Pow2Splits(7, j - 7);
        ModOfMultiple(Pow2(j - 7), Mebi);
      }
    }
  }

  lemma LargerRingNeedsNothing(ringSize: u32)
    requires SizeOk(ringSize) && ringSize > LargestRing
    ensures UmemAccepted(1, ringSize, DefaultFrameSize)
  {
    hide Pow2;
    hide Mod;
    var j := SizeIsPow2(ringSize);
    Pow2Values();
    if j < 19 {
      Pow2Grows(j, 18);
      assert false;
    } else {
      Pow2Splits(19, j - 19);
      ModOfMultiple(Pow2(j - 19), Wrap);
      ModIsRemainder(ringSize * 2 * DefaultFrameSize, Wrap);
    }
  }

  lemma ModIsRemainder(n: nat, m: nat)
    requires m > 0
    ensures Mod(n, m) == n % m
  {
  }

  lemma SmallUmemOverlaps(ringSize: u32)
    requires ringSize > 128
    ensures !LayoutSafe(1, ringSize, DefaultFrameSize)
  {
    ModIsUnique(256, Wrap, 0, 256);
    ModOfSmall(128 * DefaultFrameSize, Wrap);
    ModOfSmall(0, 128);
    assert !Apart(RxAddr(128, DefaultFrameSize), TxAddr(0, 128, DefaultFrameSize), DefaultFrameSize);
  }

  /** The frame count of a UMEM below 2^24 MiB fits 32 bits. */
  lemma CountFits(umemMb: u32)
    requires umemMb < 0x100_0000
    ensures Div(umemMb * Mebi, DefaultFrameSize) < Wrap
  {
    ModIsUnique(umemMb * Mebi, DefaultFrameSize, umemMb * 256, 0);
  }

  /** The 32-bit frame count forgets whole multiples of 2^24 MiB. */
  lemma CountWraps(umemMb: u32)
    ensures FrameCount(umemMb, DefaultFrameSize) / 2 == umemMb % 0x100_0000 * 128
  {
    var q, r := umemMb / 0x100_0000, umemMb % 0x100_0000;
    ModIsUnique(umemMb * Mebi, DefaultFrameSize, umemMb * 256, 0);
    assert umemMb * 256 == q * Wrap + r * 256;
    ModIsUnique(umemMb * 256, Wrap, q, r * 256);
  }

  /** So a layout is safe exactly when the ring fits half of what is left. */
  lemma LayoutSafeExactly(umemMb: u32, ringSize: u32)
    requires 0 < ringSize <= LargestRing
    ensures LayoutSafe(umemMb, ringSize, DefaultFrameSize) <==> ringSize <= umemMb % 0x100_0000 * 128
  {
    hide Disjoint;
    hide RxAddr;
    hide TxAddr;
    hide FrameCount;
    CountWraps(umemMb);
    var base := FrameCount(umemMb, DefaultFrameSize) / 2;
    if base > 0 {
      DisjointExactly(ringSize, base, DefaultFrameSize);
      if ringSize <= base {
        forall i | 0 <= i < ringSize
          ensures RxAddr(i, DefaultFrameSize) + DefaultFrameSize <= umemMb * Mebi
        {
          RxInBounds(umemMb, DefaultFrameSize, ringSize, i);
        }
        forall slot: nat
          ensures TxAddr(slot, base, DefaultFrameSize) + DefaultFrameSize <= umemMb * Mebi
        {
          TxInBounds(umemMb, DefaultFrameSize, slot);
        }
      }
    }
  }

  /** Hence from 2^24 MiB on config_validate no longer protects any ring. */
  lemma HugeUmemOverlaps(ringSize: u32)
    requires SizeOk(ringSize) && ringSize <= LargestRing
    ensures UmemAccepted(0x100_0000, ringSize, DefaultFrameSize)
    ensures !LayoutSafe(0x100_0000, ringSize, DefaultFrameSize)
  {
    hide LayoutSafe;
    hide Mod;
    LayoutSafeExactly(0x100_0000, ringSize);
    ModIsUnique(ringSize * 2 * DefaultFrameSize, Wrap, 0, ringSize * 2 * DefaultFrameSize);
  }

  /**
   * For frames of 4096 octets, UMEMs below 2^24 MiB and rings an AF_XDP socket can have,
   * config_validate lets only safe layouts through exactly up to 262144 entries, the size the loader
   * sets for LAN interfaces: from twice that on its 32-bit product wraps to zero and a single MiB
   * passes.
   */
  lemma ValidationProtectsExactly(ringSize: u32)
    requires SizeOk(ringSize)
    ensures (forall umemMb: u32 :: umemMb < 0x100_0000 && UmemAccepted(umemMb, ringSize, DefaultFrameSize)
                                   ==> LayoutSafe(umemMb, ringSize, DefaultFrameSize))
       <==> ringSize <= LargestRing
  {
    hide LayoutSafe;
    hide UmemAccepted;
    hide NeedIsExact;
    hide Div;
    hide Mod;
    if ringSize <= LargestRing {
      RingNeedIsExact(ringSize);
      forall umemMb: u32 | umemMb < 0x100_0000 && UmemAccepted(umemMb, ringSize, DefaultFrameSize)
        ensures LayoutSafe(umemMb, ringSize, DefaultFrameSize)
      {
        CountFits(umemMb);
        AcceptedSizesAreSafe(umemMb, ringSize, DefaultFrameSize);
      }
    } else {
      LargerRingNeedsNothing(ringSize);
      SmallUmemOverlaps(ringSize);
    }
  }

  // ---- slots ----

  /** The transmit frame of the n-th packet: the 64-bit slot counter wraps. */
  function FrameOf(n: nat, base: nat): nat
    requires base > 0
  {
    TxFrame(Mod(n, Wide), base)
  }

  /** size consecutive packets never share a frame. */
  ghost predicate NoReuse(size: nat, base: nat)
    requires base > 0
  {
    forall n: nat, m: nat :: n < m < n + size ==> FrameOf(m, base) != FrameOf(n, base)
  }

  /** What a caller can check: the ring fits the transmit half, and the counter wraps cleanly. */
  predicate SlotsSafe(size: nat, base: nat)
    requires base > 0
  {
    size <= base && (Mod(Wide, base) == 0 || size <= Mod(Wide, base))
  }

  lemma WrappedPair(n: nat, d: nat, base: nat)
    requires 0 < d < base < Wide && Mod(n, Wide) + d >= Wide && FrameOf(n + d, base) == FrameOf(n, base)
    ensures Mod(Wide, base) == d
  {
    hide Mod;
    hide Div;
    var x := Mod(n, Wide);
    DivMod(n, Wide);
    ModIsUnique(n + d, Wide, Div(n, Wide) + 1, x + d - Wide);
    ModOfSmall(x + d - Wide, base);
    DivMod(x, base);
    ModIsUnique(Wide, base, Div(x, base), d);
  }

  lemma UnwrappedPair(n: nat, d: nat, base: nat)
    requires 0 < d < base && Mod(n, Wide) + d < Wide
    ensures FrameOf(n + d, base) != FrameOf(n, base)
  {
    hide Mod;
    hide Div;
    DivMod(n, Wide);
    ModIsUnique(n + d, Wide, Div(n, Wide), Mod(n, Wide) + d);
    ModSeparates(Mod(n, Wide), d, base);
  }

  /** Frames are not reused within a ring's worth of packets exactly under that condition. */
  lemma NoReuseExactly(size: nat, base: nat)
    requires 0 < base < Wide
    ensures NoReuse(size, base) <==> SlotsSafe(size, base)
  {
    hide FrameOf;
    hide Mod;
    if SlotsSafe(size, base) {
      forall n: nat, m: nat | n < m < n + size
        ensures FrameOf(m, base) != FrameOf(n, base)
      {
        if Mod(n, Wide) + (m - n) < Wide {
          UnwrappedPair(n, m - n, base);
        } else if FrameOf(m, base) == FrameOf(n, base) {
          WrappedPair(n, m - n, base);
        }
      }
    } else if base < size {
      RepeatsAtBase(base);
    } else {
      var r := Mod(Wide, base);
      RepeatsAtWrap(base, r);
    }
  }

  lemma RepeatsAtBase(base: nat)
    requires 0 < base < Wide
    ensures FrameOf(base, base) == FrameOf(0, base)
  {
    hide Mod;
    ModOfSmall(base, Wide);
    ModOfSmall(0, Wide);
    ModOfSmall(0, base);
    ModOfSum(0, base);
  }

  lemma RepeatsAtWrap(base: nat, r: nat)
    requires 0 < base < Wide && r == Mod(Wide, base) && 0 < r
    ensures FrameOf(Wide, base) == FrameOf(Wide - r, base)
  {
    hide Mod;
    hide Div;
    DivMod(Wide, base);
    ModOfSmall(Wide - r, Wide);
    ModIsUnique(Wide, Wide, 1, 0);
    ModOfMultiple(Div(Wide, base), base);
    ModOfSmall(0, base);
  }

  // ---- the sizes the loader sets ----

  /** Accepted, safe, and no transmit frame reused within a ring. */
  ghost predicate SizesWork(umemMb: u32, ringSize: u32) {
    && SizeOk(ringSize) && UmemAccepted(umemMb, ringSize, DefaultFrameSize)
    && LayoutSafe(umemMb, ringSize, DefaultFrameSize)
    && SlotsSafe(ringSize, FrameCount(umemMb, DefaultFrameSize) / 2)
    && NoReuse(ringSize, FrameCount(umemMb, DefaultFrameSize) / 2)
  }

  /** A ring of half the frames works, for ring sizes up to the largest. */
  lemma HalfUmemWorks(umemMb: u32, ringSize: u32)
    requires SizeOk(ringSize) && ringSize <= LargestRing && umemMb * 128 == ringSize
    ensures SizesWork(umemMb, ringSize)
  {
    hide LayoutSafe;
    hide Mod;
    hide Div;
    hide Disjoint;
    hide NoReuse;
    ModIsUnique(ringSize * 2 * DefaultFrameSize, Wrap, 0, ringSize * 2 * DefaultFrameSize);
    ModIsRemainder(ringSize * 2 * DefaultFrameSize, Wrap);
    ModIsUnique(umemMb * Mebi, DefaultFrameSize, umemMb * 256, 0);
    ModOfSmall(umemMb * 256, Wrap);
    assert FrameCount(umemMb, DefaultFrameSize) / 2 == ringSize;
    RingNeedIsExact(ringSize);
    AcceptedSizesAreSafe(umemMb, ringSize, DefaultFrameSize);
    WideIsMultiple(ringSize);
    NoReuseExactly(ringSize, ringSize);
  }

  /** A ring size divides the range of the 64-bit slot counter as well. */
  lemma WideIsMultiple(size: nat)
    requires SizeOk(size)
    ensures Mod(Wide, size) == 0
  {
    hide Mod;
    hide Div;
    DivMod(Wrap, size);
    Regroup(Wrap, Div(Wrap, size), 0, size);
    ModOfMultiple(Wrap * Div(Wrap, size), size);
  }

  /** 2048 MiB with 262144 entries for LAN interfaces, 256 MiB with 32768 for WAN interfaces. */
  lemma LoaderSizesWork()
    ensures SizesWork(2048, LargestRing) && SizesWork(256, 0x8000)
  {
    hide SizesWork;
    ModIsUnique(Wrap, LargestRing, 0x4000, 0);
    ModIsUnique(Wrap, 0x8000, 0x2_0000, 0);
    HalfUmemWorks(2048, LargestRing);
    HalfUmemWorks(256, 0x8000);
  }
}
