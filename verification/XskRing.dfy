/**
 * The single-producer single-consumer rings of include/xdp/xsk.h. Indices are 32-bit counters
 * that wrap, and each side works with cached copies; both rings are shown to be bounded queues.
 */
module XskRing {
  import opened Bytes
  import opened Remainders

  const Wrap := 0x1_0000_0000

  /** Ring sizes are powers of two: the size divides the counter range. */
  predicate SizeOk(size: nat) {
    1 <= size <= 0x8000_0000 && Mod(Wrap, size) == 0
  }

  /** The 32-bit value of a counter. */
  function Low(n: nat): u32 {
    Mod(n, Wrap)
  }

  /** Counters advance by 32-bit addition. */
  function Add(a: u32, n: nat): u32 {
    Mod(a + n, Wrap)
  }

  lemma LowAdds(a: nat, n: nat)
    ensures Add(Low(a), n) == Low(a + n)
  {
    hide Mod;
    hide Div;
    DivMod(a, Wrap);
    DivMod(Mod(a, Wrap) + n, Wrap);
    ModIsUnique(a + n, Wrap, Div(a, Wrap) + Div(Mod(a, Wrap) + n, Wrap), Mod(Mod(a, Wrap) + n, Wrap));
  }

  /** Subtraction of 32-bit counters. */
  function Minus(a: u32, b: u32): u32 {
    Mod(a + Wrap - b, Wrap)
  }

  /** The place of entry n: masking the 32-bit index is masking the counter. */
  lemma PlaceOf(n: nat, size: nat)
    requires SizeOk(size)
    ensures Mod(Low(n), size) == Mod(n, size)
  {
    ModOfMod(n, Wrap, size);
  }

  /** The entries from counter c to counter p. */
  function Between<T>(desc: seq<T>, c: nat, p: nat): (q: seq<T>)
    requires |desc| > 0 && c <= p
    ensures |q| == p - c
  {
    seq(p - c, i requires 0 <= i < p - c => desc[Mod(c + i, |desc|)])
  }

  lemma BetweenOne<T>(desc: seq<T>, k: nat)
    requires |desc| > 0
    ensures Between(desc, k, k + 1) == [desc[Mod(k, |desc|)]]
  {
    hide Mod;
  }

  lemma BetweenJoins<T>(desc: seq<T>, c: nat, p: nat, q: nat)
    requires |desc| > 0 && c <= p <= q
    ensures Between(desc, c, q) == Between(desc, c, p) + Between(desc, p, q)
  {
    hide Mod;
  }

  /** Writing outside a window of at most size entries leaves the window as it was. */
  lemma BetweenSpared<T>(desc: seq<T>, c: nat, p: nat, k: nat, x: T)
    requires |desc| > 0 && c <= p <= k < c + |desc|
    ensures Between(desc[Mod(k, |desc|) := x], c, p) == Between(desc, c, p)
  {
    hide Mod;
    var desc' := desc[Mod(k, |desc|) := x];
    forall i | 0 <= i < p - c
      ensures Between(desc', c, p)[i] == Between(desc, c, p)[i]
    {
      ModSeparates(c + i, k - (c + i), |desc|);
    }
  }

  // ---- producer side ----

  /** struct xsk_ring_prod, used for the fill and TX rings; the kernel consumes. */
  class ProdRing<T(0)> {
    const size: nat
    const desc: array<T>
    var cachedProd: u32
    var cachedCons: u32
    var producer: u32
    var consumer: u32
    /** The same counters without wrap-around; seen is the consumer as last looked up. */
    ghost var reserved: nat
    ghost var submitted: nat
    ghost var consumed: nat
    ghost var seen: nat

    ghost predicate Valid()
      reads this
    {
      && SizeOk(size) && desc.Length == size
      && seen <= consumed <= submitted <= reserved <= seen + size
      && cachedProd == Low(reserved) && cachedCons == Low(seen + size)
      && producer == Low(submitted) && consumer == Low(consumed)
    }

    /** What the kernel still has to consume, oldest first. */
    ghost function Queue(): (q: seq<T>)
      requires Valid()
      reads this, desc
      ensures |q| == submitted - consumed
    {
      Between(desc[..], consumed, submitted)
    }

    constructor (size: nat)
      requires SizeOk(size)
      ensures Valid() && fresh(desc) && this.size == size && reserved == 0 && Queue() == []
    {
      this.size := size;
      desc := new T[size];
      cachedProd, cachedCons, producer, consumer := 0, size % 0x1_0000_0000, 0, 0;
      reserved, submitted, consumed, seen := 0, 0, 0, 0;
    }

    /** xsk_prod_nb_free. */
    method NbFree(nb: nat) returns (free: nat)
      requires Valid()
      modifies this`cachedCons, this`seen
      ensures Valid() && reserved + free == seen + size
      ensures free >= nb || free == size - (reserved - consumed)
    {
      hide Mod;
      WrappedDifference(seen + size, reserved, Wrap);
      free := Minus(cachedCons, cachedProd);
      if free >= nb {
        return;
      }
      cachedCons := consumer;
      LowAdds(consumed, size);
      cachedCons := Add(cachedCons, size);
      seen := consumed;
      WrappedDifference(seen + size, reserved, Wrap);
      free := Minus(cachedCons, cachedProd);
    }

    /** xsk_ring_prod__reserve: it succeeds exactly when the ring has room. */
    method Reserve(nb: nat) returns (got: nat, idx: u32)
      requires Valid()
      modifies this`cachedCons, this`seen, this`cachedProd, this`reserved
      ensures Valid() && Queue() == old(Queue())
      ensures got == (if nb <= size - (old(reserved) - consumed) then nb else 0) && reserved == old(reserved) + got
      ensures got > 0 ==> idx == Low(old(reserved))
    {
      hide Mod;
      hide Between;
      idx := 0;
      var free := NbFree(nb);
      if free < nb {
        return 0, 0;
      }
      LowAdds(reserved, nb);
      idx := cachedProd;
      cachedProd := Add(cachedProd, nb);
      reserved := reserved + nb;
      got := nb;
    }

    /** Filling in reserved entry k through its 32-bit index does not touch what is queued. */
    method Write(idx: u32, x: T, ghost k: nat)
      requires Valid() && submitted <= k < reserved && idx == Low(k)
      modifies desc
      ensures Valid() && Queue() == old(Queue())
      ensures desc[..] == old(desc[..])[Mod(k, size) := x]
    {
      hide Between;
      hide Mod;
      PlaceOf(k, size);
      BetweenSpared(desc[..], consumed, submitted, k, x);
      desc[Mod(idx, size)] := x;
      assert desc[..] == old(desc[..])[Mod(k, size) := x];
    }

    /** xsk_ring_prod__submit. */
    method Submit(nb: nat)
      requires Valid() && submitted + nb <= reserved
      modifies this`producer, this`submitted
      ensures Valid() && submitted == old(submitted) + nb
      ensures Queue() == old(Queue()) + Between(desc[..], old(submitted), submitted)
    {
      hide Between;
      hide Mod;
      LowAdds(submitted, nb);
      BetweenJoins(desc[..], consumed, submitted, submitted + nb);
      producer := Add(producer, nb);
      submitted := submitted + nb;
    }

    /** Reserve one entry, fill it in and submit it. */
    method Push(x: T) returns (ok: bool)
      requires Valid() && reserved == submitted
      modifies this, desc
      ensures Valid() && reserved == submitted
      ensures ok <==> |old(Queue())| < size
      ensures Queue() == if ok then old(Queue()) + [x] else old(Queue())
    {
      hide Mod;
      hide Between;
      var got, idx := Reserve(1);
      if got != 1 {
        return false;
      }
      ghost var k := submitted;
      Write(idx, x, k);
      Submit(1);
      BetweenOne(desc[..], k);
      ok := true;
    }

    /** The kernel takes the oldest entry. */
    method Consume() returns (x: T)
      requires Valid() && Queue() != []
      modifies this`consumer, this`consumed
      ensures Valid() && [x] + Queue() == old(Queue())
    {
      hide Mod;
      PlaceOf(consumed, size);
      x := desc[Mod(consumer, size)];
      LowAdds(consumed, 1);
      consumer := Add(consumer, 1);
      BetweenJoins(desc[..], consumed, consumed + 1, submitted);
      assert Between(desc[..], consumed, consumed + 1) == [x];
      consumed := consumed + 1;
    }
  }

  // ---- consumer side ----

  /** struct xsk_ring_cons, used for the RX ring; the kernel produces. */
  class ConsRing<T(0)> {
    const size: nat
    const desc: array<T>
    var cachedProd: u32
    var cachedCons: u32
    var producer: u32
    var consumer: u32
    ghost var peeked: nat
    ghost var released: nat
    ghost var produced: nat
    ghost var seen: nat

    ghost predicate Valid()
      reads this
    {
      && SizeOk(size) && desc.Length == size
      && released <= peeked <= seen <= produced <= released + size
      && cachedProd == Low(seen) && cachedCons == Low(peeked)
      && producer == Low(produced) && consumer == Low(released)
    }

    /** What the kernel has produced and nobody has peeked at, oldest first. */
    ghost function Queue(): (q: seq<T>)
      requires Valid()
      reads this, desc
      ensures |q| == produced - peeked
    {
      Between(desc[..], peeked, produced)
    }

    constructor (size: nat)
      requires SizeOk(size)
      ensures Valid() && fresh(desc) && this.size == size && released == 0 && Queue() == []
    {
      this.size := size;
      desc := new T[size];
      cachedProd, cachedCons, producer, consumer := 0, 0, 0, 0;
      peeked, released, produced, seen := 0, 0, 0, 0;
    }

    /** xsk_ring_cons__peek: up to nb entries, and none only when there are none (or nb is 0). */
    method Peek(nb: nat) returns (n: nat, idx: u32)
      requires Valid()
      modifies this`cachedProd, this`seen, this`cachedCons, this`peeked
      ensures Valid() && n <= nb && n <= |old(Queue())| && peeked == old(peeked) + n
      ensures n == 0 ==> nb == 0 || old(Queue()) == []
      ensures idx == Low(old(peeked)) && old(Queue()) == Between(desc[..], old(peeked), peeked) + Queue()
    {
      hide Mod;
      hide Between;
      WrappedDifference(seen, peeked, Wrap);
      var entries := Minus(cachedProd, cachedCons);
      if entries == 0 {
        cachedProd := producer;
        seen := produced;
        WrappedDifference(seen, peeked, Wrap);
        entries := Minus(cachedProd, cachedCons);
      }
      n := if entries > nb then nb else entries;
      idx := cachedCons;
      BetweenJoins(desc[..], peeked, peeked + n, produced);
      LowAdds(peeked, n);
      if n > 0 {
        cachedCons := Add(cachedCons, n);
        peeked := peeked + n;
      }
    }

    /** The descriptor at the 32-bit index of entry k. */
    method Read(idx: u32, ghost k: nat) returns (x: T)
      requires Valid() && idx == Low(k)
      ensures x == desc[Mod(k, size)]
    {
      PlaceOf(k, size);
      x := desc[Mod(idx, size)];
    }

    /** xsk_ring_cons__release. */
    method Release(nb: nat)
      requires Valid() && released + nb <= peeked
      modifies this`consumer, this`released
      ensures Valid() && released == old(released) + nb && Queue() == old(Queue())
    {
      hide Mod;
      hide Between;
      LowAdds(released, nb);
      consumer := Add(consumer, nb);
      released := released + nb;
    }

    /** The kernel adds an entry if there is room. */
    method Produce(x: T) returns (ok: bool)
      requires Valid()
      modifies this`producer, this`produced, desc
      ensures Valid() && released == old(released) && peeked == old(peeked)
      ensures ok <==> old(produced) - released < size
      ensures Queue() == if ok then old(Queue()) + [x] else old(Queue())
    {
      hide Mod;
      hide Between;
      if Minus(producer, consumer) >= size {
        WrappedDifference(produced, released, Wrap);
        return false;
      }
      WrappedDifference(produced, released, Wrap);
      PlaceOf(produced, size);
      LowAdds(produced, 1);
      BetweenSpared(desc[..], peeked, produced, produced, x);
      desc[Mod(producer, size)] := x;
      assert desc[..] == old(desc[..])[Mod(produced, size) := x];
      BetweenJoins(desc[..], peeked, produced, produced + 1);
      BetweenOne(desc[..], produced);
      producer := Add(producer, 1);
      produced := produced + 1;
      ok := true;
    }
  }
}
