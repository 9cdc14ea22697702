/**
 * The journey of receive frames through the LAN pipeline (local_queue_thread_l3l4 and
 * worker_thread in src/core/forwarder.c, the fill and RX rings in src/core/interface.c): fill
 * ring, kernel, RX ring, packet thread, worker ring, worker, and back. Each operation on a shared
 * structure is one step and steps interleave freely.
 */
module Pipeline {
  import opened Bytes

  const WorkerRingSize := 4096

  /** A frame remembers the queue it belongs to, as struct packet_job does. */
  datatype Frame = Frame(queue: nat, index: nat)

  /** Per queue: fill ring, frames with the kernel, RX ring and the packet thread's batch; then the shared places. */
  datatype State = State(sizes: seq<nat>, fill: seq<seq<Frame>>, kernel: seq<multiset<Frame>>, rx: seq<seq<Frame>>,
                         batch: seq<seq<Frame>>, ring: seq<Frame>, workers: seq<Option<Frame>>)
  {
    predicate Shaped() { |fill| == |kernel| == |rx| == |batch| == |sizes| }
  }

  datatype Action =
    | Take(q: nat)               // the kernel takes the oldest frame of a fill ring
    | Deliver(q: nat, f: Frame)  // the kernel puts a received packet's frame on the RX ring
    | Receive(q: nat, n: nat)    // the packet thread peeks a batch and releases the RX entries
    | Hand(q: nat)               // it passes its next frame to the worker ring, if that has room
    | GiveBack(q: nat)           // having found the worker ring full, it gives the frame back
    | Fetch(w: nat)              // worker w takes the oldest job
    | Done(w: nat)               // worker w gives its frame back

  /** interface_recv_release_single_queue for one frame: without room in the fill ring it is lost. */
  function Release(s: State, f: Frame): (s': State)
    requires s.Shaped()
    ensures s'.Shaped() && s'.sizes == s.sizes
  {
    if f.queue < |s.sizes| && |s.fill[f.queue]| < s.sizes[f.queue]
    then s.(fill := s.fill[f.queue := s.fill[f.queue] + [f]]) else s
  }

  /** One step; an action that is not possible changes nothing. */
  function Step(s: State, a: Action): (s': State)
    requires s.Shaped()
    ensures s'.Shaped() && s'.sizes == s.sizes
  {
    match a
    case Take(q) =>
      if q < |s.sizes| && s.fill[q] != []
      then s.(fill := s.fill[q := s.fill[q][1..]], kernel := s.kernel[q := s.kernel[q] + multiset{s.fill[q][0]}]) else s
    case Deliver(q, f) =>
      if q < |s.sizes| && f in s.kernel[q] && |s.rx[q]| < s.sizes[q]
      then s.(kernel := s.kernel[q := s.kernel[q] - multiset{f}], rx := s.rx[q := s.rx[q] + [f]]) else s
    case Receive(q, n) =>
      if q < |s.sizes| && s.batch[q] == [] && n <= |s.rx[q]|
      then s.(rx := s.rx[q := s.rx[q][n..]], batch := s.batch[q := s.rx[q][..n]]) else s
    case Hand(q) =>
      if q < |s.sizes| && s.batch[q] != [] && |s.ring| < WorkerRingSize - 1
      then s.(batch := s.batch[q := s.batch[q][1..]], ring := s.ring + [s.batch[q][0]]) else s
    case GiveBack(q) =>
      if q < |s.sizes| && s.batch[q] != []
      then Release(s.(batch := s.batch[q := s.batch[q][1..]]), s.batch[q][0]) else s
    case Fetch(w) =>
      if w < |s.workers| && s.workers[w].None? && s.ring != []
      then s.(ring := s.ring[1..], workers := s.workers[w := Some(s.ring[0])]) else s
    case Done(w) =>
      if w < |s.workers| && s.workers[w].Some?
      then Release(s.(workers := s.workers[w := None]), s.workers[w].value) else s
  }

  function Run(s: State, actions: seq<Action>): (s': State)
    requires s.Shaped()
    ensures s'.Shaped() && s'.sizes == s.sizes
  {
    if actions == [] then s else Step(Run(s, actions[..|actions| - 1]), actions[|actions| - 1])
  }

  /** Frames 0 to n - 1 of a queue. */
  function Frames(q: nat, n: nat): seq<Frame> {
    if n == 0 then [] else Frames(q, n - 1) + [Frame(q, n - 1)]
  }

  function NoJobs(n: nat): seq<Option<Frame>> {
    seq(n, _ => None)
  }

  /** After start-up: every frame in its fill ring, everything else empty. */
  function Start(sizes: seq<nat>, workers: nat): (s: State)
    ensures s.Shaped()
  {
    var n := |sizes|;
    State(sizes, seq(n, q requires 0 <= q < n => Frames(q, sizes[q])), seq(n, _ => multiset{}),
          seq(n, _ => []), seq(n, _ => []),
          [], NoJobs(workers))
  }

  // ---- where a frame is ----

  function AtWorkers(ws: seq<Option<Frame>>, f: Frame): nat {
    if ws == [] then 0 else AtWorkers(ws[..|ws| - 1], f) + if ws[|ws| - 1] == Some(f) then 1 else 0
  }

  /** In how many places frame f is. */
  function Places(s: State, f: Frame): nat
    requires s.Shaped() && f.queue < |s.sizes|
  {
    var q := f.queue;
    multiset(s.fill[q])[f] + s.kernel[q][f] + multiset(s.rx[q])[f] + multiset(s.batch[q])[f]
      + multiset(s.ring)[f] + AtWorkers(s.workers, f)
  }

  lemma {:induction false} AtWorkersAfter(ws: seq<Option<Frame>>, w: nat, x: Option<Frame>, f: Frame)
    requires w < |ws|
    ensures AtWorkers(ws[w := x], f) + (if ws[w] == Some(f) then 1 else 0)
         == AtWorkers(ws, f) + (if x == Some(f) then 1 else 0)
  {
    var last := |ws| - 1;
    if w < last {
      AtWorkersAfter(ws[..last], w, x, f);
      assert ws[w := x][..last] == ws[..last][w := x];
    } else {
      assert ws[w := x][..last] == ws[..last];
    }
  }

  lemma Shift(s: seq<Frame>)
    requires s != []
    ensures multiset(s) == multiset(s[1..]) + multiset{s[0]}
  {
    assert s == [s[0]] + s[1..];
  }

  lemma Cut(s: seq<Frame>, n: nat)
    requires n <= |s|
    ensures multiset(s) == multiset(s[..n]) + multiset(s[n..])
  {
    assert s == s[..n] + s[n..];
  }

  // ---- conservation ----

  /** Frames are only in places of their own queue. */
  ghost predicate Owned(s: State)
    requires s.Shaped()
  {
    && (forall q, f :: 0 <= q < |s.sizes| && f in s.fill[q] ==> f.queue == q)
    && (forall q, f :: 0 <= q < |s.sizes| && f in s.kernel[q] ==> f.queue == q)
    && (forall q, f :: 0 <= q < |s.sizes| && f in s.rx[q] ==> f.queue == q)
    && (forall q, f :: 0 <= q < |s.sizes| && f in s.batch[q] ==> f.queue == q)
    && (forall f :: f in s.ring ==> f.queue < |s.sizes|)
    && (forall w :: 0 <= w < |s.workers| && s.workers[w].Some? ==> s.workers[w].value.queue < |s.sizes|)
  }

  /** Every frame is in exactly one place, and nothing else is anywhere. */
  ghost predicate Conserved(s: State) {
    && s.Shaped() && Owned(s)
    && forall f: Frame :: f.queue < |s.sizes| ==> Places(s, f) == if f.index < s.sizes[f.queue] then 1 else 0
  }

  lemma {:induction false} FramesOnce(q: nat, n: nat, f: Frame)
    ensures multiset(Frames(q, n))[f] == if f.queue == q && f.index < n then 1 else 0
    ensures |Frames(q, n)| == n
  {
    if n > 0 {
      FramesOnce(q, n - 1, f);
      FramesNext(q, n, f);
    }
  }

  lemma FramesNext(q: nat, n: nat, f: Frame)
    requires n > 0
    ensures multiset(Frames(q, n))[f] == multiset(Frames(q, n - 1))[f] + if f == Frame(q, n - 1) then 1 else 0
    ensures |Frames(q, n)| == |Frames(q, n - 1)| + 1
  {
  }

  lemma {:induction false} NoneAtWorkers(n: nat, f: Frame)
    ensures AtWorkers(NoJobs(n), f) == 0
  {
    if n > 0 {
      NoneAtWorkers(n - 1, f);
      assert NoJobs(n)[..n - 1] == NoJobs(n - 1);
    }
  }

  lemma StartIsConserved(sizes: seq<nat>, workers: nat)
    ensures Conserved(Start(sizes, workers))
  {
    hide Frames;
    var s := Start(sizes, workers);
    forall f: Frame | f.queue < |sizes|
      ensures Places(s, f) == if f.index < sizes[f.queue] then 1 else 0
    {
      FramesOnce(f.queue, sizes[f.queue], f);
      NoneAtWorkers(workers, f);
    }
    forall q, f | 0 <= q < |sizes| && f in s.fill[q]
      ensures f.queue == q
    {
      FramesOnce(q, sizes[q], f);
      assert multiset(s.fill[q])[f] > 0;
    }
  }

  /** While a frame is elsewhere, its fill ring has room: the reserve on release cannot fail. */
  lemma RoomToRelease(s: State, f: Frame)
    requires Conserved(s) && f.queue < |s.sizes| && f.index < s.sizes[f.queue] && f !in s.fill[f.queue]
    ensures |s.fill[f.queue]| < s.sizes[f.queue]
  {
    var q, n := f.queue, s.sizes[f.queue];
    var have, all := multiset(s.fill[q]), multiset(Frames(q, n));
    FramesOnce(q, n, f);
    forall g
      ensures have[g] <= (all - multiset{f})[g]
    {
      FramesOnce(q, n, g);
      if g in s.fill[q] {
        assert Places(s, g) <= 1;
      }
    }
    assert all == multiset{f} + have + (all - multiset{f} - have);
  }

  lemma ReleaseOwned(s: State, f: Frame)
    requires s.Shaped() && Owned(s)
    ensures Owned(Release(s, f))
  {
  }

  lemma StepOwned(s: State, a: Action)
    requires s.Shaped() && Owned(s)
    ensures Owned(Step(s, a))
  {
    match a {
      case Hand(q) =>
        if q < |s.sizes| && s.batch[q] != [] {
          HandOwned(s, q);
        }
      case GiveBack(q) =>
        if q < |s.sizes| && s.batch[q] != [] {
          HandOwned(s, q);
          ReleaseOwned(s.(batch := s.batch[q := s.batch[q][1..]]), s.batch[q][0]);
        }
      case Done(w) =>
        if w < |s.workers| && s.workers[w].Some? {
          ReleaseOwned(s.(workers := s.workers[w := None]), s.workers[w].value);
        }
      case Take(q) => TakeOwned(s, q);
      case Deliver(q, f) => DeliverOwned(s, q, f);
      case Receive(q, n) => ReceiveOwned(s, q, n);
      case Fetch(w) => FetchOwned(s, w);
    }
  }

  lemma HandOwned(s: State, q: nat)
    requires s.Shaped() && Owned(s) && q < |s.sizes| && s.batch[q] != []
    ensures var s' := s.(batch := s.batch[q := s.batch[q][1..]]);
            Owned(s') && Owned(s'.(ring := s.ring + [s.batch[q][0]]))
  {
  }

  lemma TakeOwned(s: State, q: nat)
    requires s.Shaped() && Owned(s)
    ensures Owned(Step(s, Take(q)))
  {
  }

  lemma DeliverOwned(s: State, q: nat, f: Frame)
    requires s.Shaped() && Owned(s)
    ensures Owned(Step(s, Deliver(q, f)))
  {
  }

  lemma ReceiveOwned(s: State, q: nat, n: nat)
    requires s.Shaped() && Owned(s)
    ensures Owned(Step(s, Receive(q, n)))
  {
  }

  lemma FetchOwned(s: State, w: nat)
    requires s.Shaped() && Owned(s)
    ensures Owned(Step(s, Fetch(w)))
  {
  }

  /** Giving a frame back adds one place, its fill ring, when that has room. */
  lemma ReleasePlaces(s: State, f: Frame, g: Frame)
    requires s.Shaped() && g.queue < |s.sizes| && f.queue < |s.sizes| && |s.fill[f.queue]| < s.sizes[f.queue]
    ensures Places(Release(s, f), g) == Places(s, g) + if g == f then 1 else 0
  {
    hide AtWorkers;
  }

  lemma Occurs(s: seq<Frame>, f: Frame)
    ensures f in s <==> multiset(s)[f] > 0
  {
  }

  /** A frame in a thread's batch or with a worker is not in its fill ring. */
  lemma HeldElsewhere(s: State, f: Frame)
    requires Conserved(s) && f.queue < |s.sizes|
    requires multiset(s.batch[f.queue])[f] > 0 || AtWorkers(s.workers, f) > 0
    ensures f !in s.fill[f.queue] && f.index < s.sizes[f.queue]
  {
    hide AtWorkers;
    hide Owned;
    Occurs(s.fill[f.queue], f);
  }

  lemma {:induction false} WorkerCounts(ws: seq<Option<Frame>>, w: nat)
    requires w < |ws| && ws[w].Some?
    ensures AtWorkers(ws, ws[w].value) > 0
  {
    if w < |ws| - 1 {
      WorkerCounts(ws[..|ws| - 1], w);
    }
  }

  /** The release branch that would lose a frame is never taken. */
  lemma ReleaseHasRoom(s: State, a: Action)
    requires Conserved(s)
    ensures a.GiveBack? && a.q < |s.sizes| && s.batch[a.q] != [] ==>
              var f := s.batch[a.q][0];
              f.queue == a.q && |s.fill[f.queue]| < s.sizes[f.queue]
    ensures a.Done? && a.w < |s.workers| && s.workers[a.w].Some? ==>
              var f := s.workers[a.w].value;
              f.queue < |s.sizes| && |s.fill[f.queue]| < s.sizes[f.queue]
  {
    hide AtWorkers;
    hide Places;
    if a.GiveBack? && a.q < |s.sizes| && s.batch[a.q] != [] {
      var f := s.batch[a.q][0];
      assert f in s.batch[a.q] && multiset(s.batch[a.q])[f] > 0;
      HeldElsewhere(s, f);
      RoomToRelease(s, f);
    }
    if a.Done? && a.w < |s.workers| && s.workers[a.w].Some? {
      var f := s.workers[a.w].value;
      WorkerCounts(s.workers, a.w);
      HeldElsewhere(s, f);
      RoomToRelease(s, f);
    }
  }

  /** A frame taken out of a batch leaves one place. */
  lemma UnbatchedPlaces(s: State, q: nat, g: Frame)
    requires s.Shaped() && Owned(s) && g.queue < |s.sizes| && q < |s.sizes| && s.batch[q] != []
    ensures Places(s.(batch := s.batch[q := s.batch[q][1..]]), g) + (if g == s.batch[q][0] then 1 else 0)
            == Places(s, g)
  {
    hide AtWorkers;
    Shift(s.batch[q]);
  }

  lemma HandPlaces(s: State, q: nat, g: Frame)
    requires s.Shaped() && Owned(s) && g.queue < |s.sizes|
    ensures Places(Step(s, Hand(q)), g) == Places(s, g)
  {
    hide AtWorkers;
    if q < |s.sizes| && s.batch[q] != [] {
      UnbatchedPlaces(s, q, g);
    }
  }

  lemma GiveBackPlaces(s: State, q: nat, g: Frame)
    requires Conserved(s) && g.queue < |s.sizes|
    ensures Places(Step(s, GiveBack(q)), g) == Places(s, g)
  {
    hide AtWorkers;
    hide Places;
    hide Owned;
    if q < |s.sizes| && s.batch[q] != [] {
      ReleaseHasRoom(s, GiveBack(q));
      UnbatchedPlaces(s, q, g);
      ReleasePlaces(s.(batch := s.batch[q := s.batch[q][1..]]), s.batch[q][0], g);
    }
  }

  lemma DonePlaces(s: State, w: nat, g: Frame)
    requires Conserved(s) && g.queue < |s.sizes|
    ensures Places(Step(s, Done(w)), g) == Places(s, g)
  {
    hide AtWorkers;
    hide Owned;
    if w < |s.workers| && s.workers[w].Some? {
      ReleaseHasRoom(s, Done(w));
      AtWorkersAfter(s.workers, w, None, g);
      ReleasePlaces(s.(workers := s.workers[w := None]), s.workers[w].value, g);
    }
  }

  lemma FetchPlaces(s: State, w: nat, g: Frame)
    requires s.Shaped() && g.queue < |s.sizes|
    ensures Places(Step(s, Fetch(w)), g) == Places(s, g)
  {
    hide AtWorkers;
    if w < |s.workers| && s.workers[w].None? && s.ring != [] {
      Shift(s.ring);
      AtWorkersAfter(s.workers, w, Some(s.ring[0]), g);
    }
  }

  lemma TakePlaces(s: State, q: nat, g: Frame)
    requires s.Shaped() && Owned(s) && g.queue < |s.sizes|
    ensures Places(Step(s, Take(q)), g) == Places(s, g)
  {
    hide AtWorkers;
    if q < |s.sizes| && s.fill[q] != [] {
      Shift(s.fill[q]);
    }
  }

  lemma DeliverPlaces(s: State, q: nat, f: Frame, g: Frame)
    requires s.Shaped() && Owned(s) && g.queue < |s.sizes|
    ensures Places(Step(s, Deliver(q, f)), g) == Places(s, g)
  {
    hide AtWorkers;
  }

  lemma ReceivePlaces(s: State, q: nat, n: nat, g: Frame)
    requires s.Shaped() && g.queue < |s.sizes|
    ensures Places(Step(s, Receive(q, n)), g) == Places(s, g)
  {
    hide AtWorkers;
    if q < |s.sizes| && n <= |s.rx[q]| {
      Cut(s.rx[q], n);
    }
  }

  lemma StepIsConserved(s: State, a: Action)
    requires Conserved(s)
    ensures Conserved(Step(s, a))
  {
    hide Places;
    hide Owned;
    hide Step;
    StepOwned(s, a);
    forall g: Frame | g.queue < |s.sizes|
      ensures Places(Step(s, a), g) == Places(s, g)
    {
      match a {
        case Hand(q) => HandPlaces(s, q, g);
        case GiveBack(q) => GiveBackPlaces(s, q, g);
        case Done(w) => DonePlaces(s, w, g);
        case Fetch(w) => FetchPlaces(s, w, g);
        case Take(q) => TakePlaces(s, q, g);
        case Deliver(q, f) => DeliverPlaces(s, q, f, g);
        case Receive(q, n) => ReceivePlaces(s, q, n, g);
      }
    }
  }

  lemma {:induction false} RunIsConserved(s: State, actions: seq<Action>)
    requires Conserved(s)
    ensures Conserved(Run(s, actions))
  {
    hide Places;
    hide Owned;
    hide Step;
    if actions != [] {
      RunIsConserved(s, actions[..|actions| - 1]);
      StepIsConserved(Run(s, actions[..|actions| - 1]), actions[|actions| - 1]);
    }
  }

  /**
   * From start-up, through any interleaving of the kernel, the packet threads and the workers, a
   * release being one step: every receive frame is in exactly one place, and whoever is about to
   * give one back finds room in its fill ring. ReleaseSteps says when releases in three steps do.
   */
  lemma FramesAreConserved(sizes: seq<nat>, workers: nat, actions: seq<Action>, a: Action)
    ensures var s := Run(Start(sizes, workers), actions);
            && (forall f: Frame :: f.queue < |sizes| ==> Places(s, f) == if f.index < sizes[f.queue] then 1 else 0)
            && (a.GiveBack? && a.q < |sizes| && s.batch[a.q] != [] ==>
                 s.batch[a.q][0].queue == a.q && |s.fill[a.q]| < sizes[a.q])
            && (a.Done? && a.w < |s.workers| && s.workers[a.w].Some? ==>
                 var f := s.workers[a.w].value; f.queue < |sizes| && |s.fill[f.queue]| < sizes[f.queue])
  {
    hide Places;
    hide Owned;
    StartIsConserved(sizes, workers);
    RunIsConserved(Start(sizes, workers), actions);
    ReleaseHasRoom(Run(Start(sizes, workers), actions), a);
  }

  // ---- frames go round ----

  /**
   * The oldest frame of ring q goes all the way round - taken, filled with a packet, received, handed
   * to worker w and given back - and then is the youngest of its fill ring, with all else as before.
   */
  lemma FrameGoesRound(s: State, q: nat, w: nat, f: Frame, rest: seq<Frame>)
    requires s.Shaped() && q < |s.sizes| && w < |s.workers| && s.workers[w] == None && f.queue == q
    requires s.fill[q] == [f] + rest && |rest| < s.sizes[q] && s.rx[q] == s.batch[q] == s.ring == []
    ensures var s1 := Step(Step(Step(s, Take(q)), Deliver(q, f)), Receive(q, 1));
            && s1 == s.(fill := s.fill[q := rest], batch := s.batch[q := [f]])
            && Step(s1, GiveBack(q)) == s.(fill := s.fill[q := rest + [f]])
            && Step(Step(Step(s1, Hand(q)), Fetch(w)), Done(w)) == s.(fill := s.fill[q := rest + [f]])
  {
    ComesIn(s, q, f, rest);
    GoesBack(s.(fill := s.fill[q := rest], batch := s.batch[q := [f]]), q, w, f, rest);
    assert s.batch[q := [f]][q := []] == s.batch && s.fill[q := rest][q := rest + [f]] == s.fill[q := rest + [f]];
  }

  lemma ComesIn(s: State, q: nat, f: Frame, rest: seq<Frame>)
    requires s.Shaped() && q < |s.sizes| && s.fill[q] == [f] + rest && 0 < s.sizes[q] && s.rx[q] == s.batch[q] == []
    ensures Step(Step(Step(s, Take(q)), Deliver(q, f)), Receive(q, 1))
         == s.(fill := s.fill[q := rest], batch := s.batch[q := [f]])
  {
    var k := s.kernel[q := s.kernel[q] + multiset{f}];
    var s1 := Step(s, Take(q));
    assert s1 == s.(fill := s.fill[q := rest], kernel := k);
    var s2 := Step(s1, Deliver(q, f));
    assert k[q] - multiset{f} == s.kernel[q] && k[q := s.kernel[q]] == s.kernel;
    assert s.rx[q] + [f] == [f];
    assert s2 == s.(fill := s.fill[q := rest], rx := s.rx[q := [f]]);
    assert s.rx[q := [f]][q := []] == s.rx;
    assert s2.rx[q][1..] == [] && s2.rx[q][..1] == [f];
  }

  lemma GoesBack(s: State, q: nat, w: nat, f: Frame, rest: seq<Frame>)
    requires s.Shaped() && q < |s.sizes| && w < |s.workers| && s.workers[w] == None && f.queue == q
    requires s.fill[q] == rest && |rest| < s.sizes[q] && s.batch[q] == [f] && s.ring == []
    ensures Step(s, GiveBack(q)) == s.(batch := s.batch[q := []], fill := s.fill[q := rest + [f]])
    ensures Step(Step(Step(s, Hand(q)), Fetch(w)), Done(w))
         == s.(batch := s.batch[q := []], fill := s.fill[q := rest + [f]])
  {
    assert s.batch[q][1..] == [] && s.ring + [f] == [f];
    var s1 := Step(s, Hand(q));
    assert s1 == s.(batch := s.batch[q := []], ring := [f]);
    var s2 := Step(s1, Fetch(w));
    assert s2 == s.(batch := s.batch[q := []], workers := s.workers[w := Some(f)]);
    assert s.workers[w := Some(f)][w := None] == s.workers;
  }

  /** The worker ring takes 4095 jobs: only then does a frame wait with the thread, which gives it back itself. */
  lemma FullRingGivesBack(s: State, q: nat, f: Frame, rest: seq<Frame>)
    requires s.Shaped() && q < |s.sizes| && s.batch[q] == [f] + rest && f.queue == q && |s.fill[q]| < s.sizes[q]
    ensures if |s.ring| < 4095
            then Step(s, Hand(q)) == s.(batch := s.batch[q := rest], ring := s.ring + [f])
            else Step(s, Hand(q)) == s
    ensures Step(s, GiveBack(q)) == s.(batch := s.batch[q := rest], fill := s.fill[q := s.fill[q] + [f]])
  {
    assert s.batch[q][1..] == rest;
  }

  /** An idle worker takes the oldest job. */
  lemma OldestJobFirst(s: State, w: nat, f: Frame, rest: seq<Frame>)
    requires s.Shaped() && w < |s.workers| && s.workers[w] == None && s.ring == [f] + rest
    ensures Step(s, Fetch(w)) == s.(ring := rest, workers := s.workers[w := Some(f)])
  {
    assert s.ring[1..] == rest;
  }
}
