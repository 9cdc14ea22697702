/**
 * The shared structures of the LAN pipeline in place: a queue's fill and RX rings as
 * src/core/interface.c uses them, and the worker ring of src/core/forwarder.c. Each method does to
 * its structure what the corresponding step of Pipeline does to that part of the state.
 */
module FrameQueues {
  import opened Bytes
  import opened Pipeline
  import opened Remainders
  import opened Umem
  import opened XskRing

  // ---- fill and RX rings ----

  /** The addresses the initial fill queues. */
  function InitialAddrs(n: nat, frameSize: u32): (r: seq<nat>)
    ensures |r| == n
  {
    seq(n, i requires 0 <= i < n => RxAddr(i, frameSize))
  }

  /** Distinct receive frames have distinct addresses, so an address names its frame. */
  lemma AddrsNameFrames(n: nat, frameSize: u32, i: nat, j: nat)
    requires i < j < n && frameSize > 0 && n * frameSize < Wrap
    ensures InitialAddrs(n, frameSize)[i] != InitialAddrs(n, frameSize)[j]
  {
    hide RxAddr;
    RxAddrIsExact(i, n, frameSize);
    RxAddrIsExact(j, n, frameSize);
    Ordered(i, j, frameSize);
  }

  /** The fill loop of interface_init_local: reserve the whole ring, write every entry, submit. */
  method InitialFill(fill: ProdRing<nat>, frameSize: u32)
    requires fill.Valid() && fill.reserved == fill.submitted && fill.Queue() == []
    modifies fill, fill.desc
    ensures fill.Valid() && fill.reserved == fill.submitted
    ensures fill.Queue() == InitialAddrs(fill.size, frameSize)
  {
    hide Between;
    hide Mod;
    hide RxAddr;
    ghost var start := fill.submitted;
    var got, idx := fill.Reserve(fill.size);
    ghost var first := idx;
    var i := 0;
    while i < got
      invariant 0 <= i <= got && fill.Valid() && fill.Queue() == []
      invariant fill.submitted == start && fill.reserved == start + got && got == fill.size
      invariant idx == Low(start + i)
      invariant Between(fill.desc[..], start, start + i) == InitialAddrs(i, frameSize)
    {
      ghost var before := fill.desc[..];
      fill.Write(idx, RxAddr(i, frameSize), start + i);
      WrittenNext(before, start, i, RxAddr(i, frameSize));
      LowAdds(start + i, 1);
      idx := Add(idx, 1);
      i := i + 1;
      assert InitialAddrs(i, frameSize) == InitialAddrs(i - 1, frameSize) + [RxAddr(i - 1, frameSize)];
    }
    fill.Submit(got);
  }

  /** Writing the entry behind a window extends the window. */
  lemma WrittenNext(desc: seq<nat>, start: nat, i: nat, x: nat)
    requires i < |desc|
    ensures Between(desc[Mod(start + i, |desc|) := x], start, start + i + 1) == Between(desc, start, start + i) + [x]
  {
    hide Mod;
    BetweenSpared(desc, start, start + i, start + i, x);
    BetweenJoins(desc[Mod(start + i, |desc|) := x], start, start + i, start + i + 1);
  }

  /** interface_recv_single_queue: the oldest received frames, whose RX entries are freed at once. */
  method Receive(rx: ConsRing<nat>, max: nat) returns (addrs: seq<nat>)
    requires rx.Valid() && rx.released == rx.peeked
    modifies rx
    ensures rx.Valid() && rx.released == rx.peeked
    ensures |addrs| <= max && addrs + rx.Queue() == old(rx.Queue())
    ensures addrs == [] ==> max == 0 || old(rx.Queue()) == []
  {
    hide Between;
    hide Mod;
    ghost var start := rx.peeked;
    var n, idx := rx.Peek(max);
    addrs := [];
    var j := 0;
    while j < n
      invariant 0 <= j <= n && |addrs| == j
      invariant rx.Valid() && rx.released == start && rx.peeked == start + n
      invariant old(rx.Queue()) == Between(rx.desc[..], start, start + n) + rx.Queue()
      invariant addrs == Between(rx.desc[..], start, start + j)
    {
      LowAdds(start, j);
      var a := rx.Read(Add(idx, j), start + j);
      BetweenJoins(rx.desc[..], start, start + j, start + j + 1);
      BetweenOne(rx.desc[..], start + j);
      addrs := addrs + [a];
      j := j + 1;
    }
    rx.Release(n);
  }

  /** interface_recv_release_single_queue: gives frames back while the fill ring has room. */
  method GiveBack(fill: ProdRing<nat>, addrs: seq<nat>)
    requires fill.Valid() && fill.reserved == fill.submitted
    modifies fill, fill.desc
    ensures fill.Valid() && fill.reserved == fill.submitted
    ensures |old(fill.Queue())| + |addrs| <= fill.size ==> fill.Queue() == old(fill.Queue()) + addrs
    ensures exists k :: 0 <= k <= |addrs| && fill.Queue() == old(fill.Queue()) + addrs[..k]
  {
    hide Between;
    hide Mod;
    ghost var q0, k := fill.Queue(), 0;
    assert addrs[..0] == [] && q0 + [] == q0;
    var i := 0;
    while i < |addrs|
      invariant 0 <= k <= i <= |addrs|
      invariant fill.Valid() && fill.reserved == fill.submitted
      invariant fill.Queue() == q0 + addrs[..k]
      invariant k == i || |fill.Queue()| == fill.size
    {
      var ok := fill.Push(addrs[i]);
      if ok {
        assert addrs[..k + 1] == addrs[..k] + [addrs[k]];
        k := k + 1;
      }
      i := i + 1;
    }
    if |q0| + |addrs| <= fill.size {
      assert k == |addrs| && addrs[..k] == addrs;
    }
  }

  // ---- worker ring ----

  /** (n + 1) % WORKER_RING_SIZE, as the two locked sections compute it. */
  lemma NextPlace(n: nat)
    requires n < WorkerRingSize
    ensures Mod(n + 1, WorkerRingSize) == if n + 1 == WorkerRingSize then 0 else n + 1
  {
  }

  lemma BetweenShifts<T>(desc: seq<T>, c: nat, p: nat)
    requires |desc| > 0 && c <= p
    ensures Between(desc, c + |desc|, p + |desc|) == Between(desc, c, p)
  {
    hide Mod;
    forall i | 0 <= i < p - c
      ensures Between(desc, c + |desc|, p + |desc|)[i] == Between(desc, c, p)[i]
    {
      ModOfSum(c + i, |desc|);
    }
  }

  /** struct worker_ring: one place stays empty to tell full from empty. */
  class WorkerRing {
    const jobs: array<Frame>
    var head: nat
    var tail: nat

    ghost predicate Valid()
      reads this
    {
      jobs.Length == WorkerRingSize && head < WorkerRingSize && tail < WorkerRingSize
    }

    ghost function Waiting(): nat
      requires Valid()
      reads this
    {
      if head <= tail then tail - head else tail + WorkerRingSize - head
    }

    /** The jobs that wait, oldest first. */
    ghost function Queue(): (q: seq<Frame>)
      requires Valid()
      reads this, jobs
      ensures |q| == Waiting() < WorkerRingSize
    {
      Between(jobs[..], head, head + Waiting())
    }

    constructor ()
      ensures Valid() && fresh(jobs) && Queue() == []
    {
      jobs := new Frame[WorkerRingSize](_ => Frame(0, 0));
      head, tail := 0, 0;
    }

    /** The locked section of the packet thread: it fails exactly when 4095 jobs wait. */
    method Enqueue(f: Frame) returns (ok: bool)
      requires Valid()
      modifies this`tail, jobs
      ensures Valid() && (ok <==> |old(Queue())| < 4095)
      ensures Queue() == if ok then old(Queue()) + [f] else old(Queue())
    {
      hide Between;
      hide Mod;
      var next := Mod(tail + 1, WorkerRingSize);
      NextPlace(tail);
      if next == head {
        return false;
      }
      ghost var before, end := jobs[..], head + Waiting();
      assert Mod(end, WorkerRingSize) == tail by {
        ModOfSmall(tail, WorkerRingSize);
        ModOfSum(tail, WorkerRingSize);
      }
      jobs[tail] := f;
      assert jobs[..] == before[Mod(end, WorkerRingSize) := f];
      BetweenSpared(before, head, end, end, f);
      BetweenJoins(jobs[..], head, end, end + 1);
      BetweenOne(jobs[..], end);
      tail := next;
      ok := true;
    }

    /** The locked section of a worker: the oldest job, if any. */
    method Dequeue() returns (job: Option<Frame>)
      requires Valid()
      modifies this`head
      ensures Valid() && (job.None? <==> old(Queue()) == [])
      ensures if job.None? then Queue() == [] else [job.value] + Queue() == old(Queue())
    {
      if head == tail {
        return None;
      }
      hide Between;
      hide Mod;
      NextPlace(head);
      ModOfSmall(head, WorkerRingSize);
      ghost var end := head + Waiting();
      BetweenJoins(jobs[..], head, head + 1, end);
      BetweenOne(jobs[..], head);
      job := Some(jobs[head]);
      if head + 1 == WorkerRingSize {
        BetweenShifts(jobs[..], 0, end - WorkerRingSize);
      }
      head := Mod(head + 1, WorkerRingSize);
    }
  }
}
