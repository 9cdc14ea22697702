/**
 * Sending through one queue (interface_send_batch_queue in src/core/interface.c): packets are
 * copied into transmit frames and their descriptors queued for the kernel.
 */
module TxQueue {
  import opened Bytes
  import opened Remainders
  import opened Umem
  import opened XskRing

  datatype Desc = Desc(addr: nat, len: nat)

  /** desc is the descriptor of the n-th packet, and pkt is still in its frame. */
  predicate Held(mem: seq<byte>, desc: Desc, n: nat, base: nat, frameSize: u32, pkt: seq<byte>)
    requires base > 0
  {
    && desc == Desc(FrameOf(n, base) * frameSize, |pkt|)
    && desc.addr + |pkt| <= |mem| && |pkt| <= frameSize
    && mem[desc.addr..desc.addr + |pkt|] == pkt
  }

  /** Writing into another frame leaves the packet in place. */
  lemma HeldSpared(mem: seq<byte>, desc: Desc, n: nat, base: nat, frameSize: u32, pkt: seq<byte>, m: nat,
                   new_: seq<byte>)
    requires base > 0 && Held(mem, desc, n, base, frameSize, pkt) && FrameOf(m, base) != FrameOf(n, base)
    requires |new_| <= frameSize && FrameOf(m, base) * frameSize + |new_| <= |mem|
    ensures Held(Splice(mem, FrameOf(m, base) * frameSize, new_), desc, n, base, frameSize, pkt)
  {
    hide FrameOf;
    if FrameOf(m, base) < FrameOf(n, base) {
      Ordered(FrameOf(m, base), FrameOf(n, base), frameSize);
    } else {
      Ordered(FrameOf(n, base), FrameOf(m, base), frameSize);
    }
  }

  /** A packet just written to its frame is there. */
  lemma NewlyHeld(mem: seq<byte>, n: nat, base: nat, frameSize: u32, pkt: seq<byte>)
    requires base > 0 && |pkt| <= frameSize && FrameOf(n, base) * frameSize + |pkt| <= |mem|
    ensures var at := FrameOf(n, base) * frameSize;
            Held(Splice(mem, at, pkt), Desc(at, |pkt|), n, base, frameSize, pkt)
  {
    hide FrameOf;
    SpliceSelf(mem, FrameOf(n, base) * frameSize, pkt);
  }

  /** Of the first n packets, q describes the last ones, pkts, each still in its own frame. */
  ghost predicate AllHeld(mem: seq<byte>, q: seq<Desc>, n: nat, base: nat, frameSize: u32, pkts: seq<seq<byte>>)
    requires base > 0
  {
    |q| == |pkts| <= n && forall i :: 0 <= i < |q| ==> Held(mem, q[i], n - |q| + i, base, frameSize, pkts[i])
  }

  /** The next packet's frame is free, so writing it disturbs nothing. */
  lemma NextHeld(mem: seq<byte>, q: seq<Desc>, n: nat, base: nat, frameSize: u32, pkts: seq<seq<byte>>, pkt: seq<byte>,
                 size: nat)
    requires 0 < base < Wide && SlotsSafe(size, base) && |q| < size
    requires AllHeld(mem, q, n, base, frameSize, pkts) && |pkt| <= frameSize
    requires FrameOf(n, base) * frameSize + |pkt| <= |mem|
    ensures var at := FrameOf(n, base) * frameSize;
            AllHeld(Splice(mem, at, pkt), q + [Desc(at, |pkt|)], n + 1, base, frameSize, pkts + [pkt])
  {
    hide FrameOf;
    hide SlotsSafe;
    hide Held;
    hide Splice;
    NoReuseExactly(size, base);
    var at := FrameOf(n, base) * frameSize;
    var mem', q', pkts' := Splice(mem, at, pkt), q + [Desc(at, |pkt|)], pkts + [pkt];
    forall i | 0 <= i < |q'|
      ensures Held(mem', q'[i], n + 1 - |q'| + i, base, frameSize, pkts'[i])
    {
      if i < |q| {
        HeldSpared(mem, q[i], n - |q| + i, base, frameSize, pkts[i], n, pkt);
      } else {
        NewlyHeld(mem, n, base, frameSize, pkt);
      }
    }
  }

  lemma FrameOfSlot(n: nat, base: nat)
    requires base > 0
    ensures FrameOf(Mod(n, Wide), base) == FrameOf(n, base) && base <= FrameOf(n, base)
  {
    hide Mod;
    ModOfSmall(Mod(n, Wide), Wide);
  }

  /** Transmit frames lie above the receive frames. */
  lemma AboveReceive(mem: seq<byte>, n: nat, base: nat, frameSize: u32, pkt: seq<byte>)
    requires base > 0 && FrameOf(n, base) * frameSize + |pkt| <= |mem|
    ensures base * frameSize <= FrameOf(n, base) * frameSize
    ensures Splice(mem, FrameOf(n, base) * frameSize, pkt)[..base * frameSize] == mem[..base * frameSize]
  {
    FrameOfSlot(n, base);
    hide FrameOf;
    if base < FrameOf(n, base) {
      Ordered(base, FrameOf(n, base), frameSize);
    }
  }

  lemma NextSlot(n: nat)
    ensures Mod(n + 1, Wide) == if Mod(n, Wide) + 1 == Wide then 0 else Mod(n, Wide) + 1
  {
    hide Mod;
    hide Div;
    DivMod(n, Wide);
    if Mod(n, Wide) + 1 == Wide {
      ModIsUnique(n + 1, Wide, Div(n, Wide) + 1, 0);
    } else {
      ModIsUnique(n + 1, Wide, Div(n, Wide), Mod(n, Wide) + 1);
    }
  }

  class Queue {
    const mem: array<byte>
    const base: nat
    const frameSize: u32
    const tx: ProdRing<Desc>
    var slot: u64
    /** Packets sent so far, and those of them the kernel has not transmitted. */
    ghost var sent: nat
    ghost var inFlight: seq<seq<byte>>

    /** Every transmit frame is inside the memory. */
    ghost predicate FramesInside()
    {
      base > 0 && forall n: nat :: FrameOf(n, base) * frameSize + frameSize <= mem.Length
    }

    /** The ring describes the packets in flight, each still in its own frame. */
    ghost predicate Valid()
      reads this, mem, tx, tx.desc
    {
      && tx.Valid() && tx.reserved == tx.submitted
      && 0 < base < Wide && SlotsSafe(tx.size, base) && FramesInside()
      && slot == Mod(sent, Wide)
      && AllHeld(mem[..], tx.Queue(), sent, base, frameSize, inFlight)
    }

    constructor (mem: array<byte>, base: nat, frameSize: u32, ringSize: nat)
      requires SizeOk(ringSize) && 0 < base < Wide && SlotsSafe(ringSize, base)
      requires forall n: nat :: FrameOf(n, base) * frameSize + frameSize <= mem.Length
      ensures Valid() && fresh(tx) && fresh(tx.desc) && inFlight == []
      ensures this.mem == mem && this.base == base && this.frameSize == frameSize && tx.size == ringSize
    {
      hide FrameOf;
      this.mem, this.base, this.frameSize := mem, base, frameSize;
      tx := new ProdRing<Desc>(ringSize);
      slot, sent, inFlight := 0, 0, [];
      new;
      ModOfSmall(0, Wide);
    }

    /** One attempt at sending. A full ring refuses; otherwise nothing in flight is disturbed. */
    method Send(pkt: seq<byte>) returns (ok: bool)
      requires Valid() && |pkt| <= frameSize
      modifies this`slot, this`sent, this`inFlight, mem, tx, tx.desc
      ensures Valid()
      ensures ok <==> |old(inFlight)| < tx.size
      ensures inFlight == if ok then old(inFlight) + [pkt] else old(inFlight)
      ensures base * frameSize <= mem.Length && mem[..base * frameSize] == old(mem[..])[..base * frameSize]
    {
      hide FrameOf;
      hide Mod;
      hide Held;
      hide Between;
      hide SlotsSafe;
      ghost var n, before, queued := sent, mem[..], tx.Queue();
      FrameOfSlot(n, base);
      assert FrameOf(n, base) * frameSize + frameSize <= mem.Length;
      AboveReceive(before, n, base, frameSize, pkt);
      var got, idx := tx.Reserve(1);
      if got < 1 {
        return false;
      }
      var addr := FrameOf(slot, base) * frameSize;
      NextSlot(n);
      slot := if slot + 1 == Wide then 0 else slot + 1;
      NextHeld(before, queued, n, base, frameSize, inFlight, pkt, tx.size);
      Copy(mem, addr, pkt);
      ghost var k := tx.submitted;
      tx.Write(idx, Desc(addr, |pkt|), k);
      tx.Submit(1);
      BetweenOne(tx.desc[..], k);
      sent := sent + 1;
      inFlight := inFlight + [pkt];
      ok := true;
    }

    /** The kernel transmits the oldest packet, exactly as it was sent. */
    method Transmit() returns (pkt: seq<byte>)
      requires Valid() && inFlight != []
      modifies this`inFlight, tx
      ensures Valid() && [pkt] + inFlight == old(inFlight)
    {
      hide FrameOf;
      hide Between;
      hide Apart;
      hide SlotsSafe;
      ghost var q := tx.Queue();
      assert Held(mem[..], q[0], sent - |q| + 0, base, frameSize, inFlight[0]);
      var d := tx.Consume();
      pkt := mem[d.addr..d.addr + d.len];
      inFlight := inFlight[1..];
      assert q[1..] == tx.Queue();
    }
  }
}
