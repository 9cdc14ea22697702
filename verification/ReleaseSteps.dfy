/**
 * Giving frames back in the three steps that interface_recv_release_single_queue in
 * src/core/interface.c takes: reserve a place in the fill ring, write it, submit it. No lock covers
 * the three, and a worker and a packet thread may release to one ring at the same time. Frames are
 * conserved while releases to one ring do not overlap; overlapping ones can lose frames.
 */
module ReleaseSteps {
  import opened Bytes
  import opened Pipeline
  import opened Remainders
  import opened XskRing

  // ---- states and steps ----

  /** The producer side of a fill ring, with its counters before they wrap. */
  datatype Ring = Ring(slots: seq<Frame>, reserved: nat, submitted: nat, consumed: nat) {
    predicate Ok(size: nat) {
      |slots| == size > 0 && consumed <= submitted <= reserved <= consumed + size
    }
  }

  /** Who may give frames back: the packet thread of a queue, or a worker. */
  datatype Who = Thread(q: nat) | Worker(w: nat)

  /** How far a release has got; k counts the reserved place. */
  datatype Phase = Wants | Reserved(k: nat) | Written(k: nat)

  /** The rings, all other places (the fill lists of rest are not used), and the releases under way. */
  datatype Fine = Fine(rings: seq<Ring>, rest: State, busy: map<Who, Phase>)

  datatype FineAction = Other(a: Action) | Begin(who: Who) | Reserve(who: Who) | Write(who: Who) | Submit(who: Who)

  predicate Shape(s: Fine) {
    && s.rest.Shaped() && |s.rings| == |s.rest.sizes|
    && forall q :: 0 <= q < |s.rings| ==> s.rings[q].Ok(s.rest.sizes[q])
  }

  /** What the kernel will find in each ring. */
  function Shown(rings: seq<Ring>): (r: seq<seq<Frame>>)
    requires forall q :: 0 <= q < |rings| ==> |rings[q].slots| > 0 && rings[q].consumed <= rings[q].submitted
    ensures |r| == |rings|
  {
    seq(|rings|, q requires 0 <= q < |rings| => Between(rings[q].slots, rings[q].consumed, rings[q].submitted))
  }

  /** The state as one in which a release is a single step, its submit. */
  function View(s: Fine): (v: State)
    requires Shape(s)
    ensures v.Shaped() && v.sizes == s.rest.sizes
  {
    s.rest.(fill := Shown(s.rings))
  }

  /** The frame a releaser gives back next. */
  function HeldBy(v: State, who: Who): Option<Frame> {
    match who
    case Thread(q) => if q < |v.batch| && v.batch[q] != [] then Some(v.batch[q][0]) else None
    case Worker(w) => if w < |v.workers| then v.workers[w] else None
  }

  function Drop(v: State, who: Who): (v': State)
    requires v.Shaped() && HeldBy(v, who).Some?
    ensures v'.Shaped() && v'.sizes == v.sizes
  {
    match who
    case Thread(q) => v.(batch := v.batch[q := v.batch[q][1..]])
    case Worker(w) => v.(workers := v.workers[w := None])
  }

  /** The ring a releaser's frame goes to. */
  function RingOf(s: Fine, who: Who): Option<nat> {
    var f := HeldBy(s.rest, who);
    if f.Some? && f.value.queue < |s.rings| then Some(f.value.queue) else None
  }

  /** A step that may be taken. A release starts when a worker is done or a thread found the worker ring full. */
  predicate Enabled(s: Fine, a: FineAction)
    requires Shape(s)
  {
    match a
    case Other(Take(q)) => q < |s.rings| && s.rings[q].consumed < s.rings[q].submitted
    case Other(Hand(q)) => Thread(q) !in s.busy
    case Other(GiveBack(_)) => false
    case Other(Done(_)) => false
    case Other(_) => true
    case Begin(who) => who !in s.busy && RingOf(s, who).Some? && (who.Thread? ==> |s.rest.ring| >= WorkerRingSize - 1)
    case Reserve(who) => who in s.busy && s.busy[who] == Wants && RingOf(s, who).Some?
    case Write(who) => who in s.busy && s.busy[who].Reserved? && RingOf(s, who).Some?
    case Submit(who) =>
      && who in s.busy && s.busy[who].Written? && RingOf(s, who).Some?
      && s.rings[RingOf(s, who).value].submitted < s.rings[RingOf(s, who).value].reserved
  }

  function Step(s: Fine, a: FineAction): (s': Fine)
    requires Shape(s)
    ensures Shape(s') && s'.rest.sizes == s.rest.sizes
  {
    if !Enabled(s, a) then s
    else
      match a
      case Other(Take(q)) =>
        var r := s.rings[q];
        s.(rings := s.rings[q := r.(consumed := r.consumed + 1)], rest := Pipeline.Step(View(s), Take(q)))
      case Other(b) => s.(rest := Pipeline.Step(View(s), b))
      case Begin(who) => s.(busy := s.busy[who := Wants])
      case Reserve(who) =>
        var q := RingOf(s, who).value;
        var r := s.rings[q];
        if r.reserved < r.consumed + |r.slots|
        then s.(rings := s.rings[q := r.(reserved := r.reserved + 1)], busy := s.busy[who := Reserved(r.reserved)])
        else s.(rest := Drop(s.rest, who), busy := s.busy - {who})
      case Write(who) =>
        var q, k := RingOf(s, who).value, s.busy[who].k;
        var r := s.rings[q];
        s.(rings := s.rings[q := r.(slots := r.slots[Mod(k, |r.slots|) := HeldBy(s.rest, who).value])],
           busy := s.busy[who := Written(k)])
      case Submit(who) =>
        var q := RingOf(s, who).value;
        var r := s.rings[q];
        s.(rings := s.rings[q := r.(submitted := r.submitted + 1)], rest := Drop(s.rest, who), busy := s.busy - {who})
  }

  function Run(s: Fine, actions: seq<FineAction>): (s': Fine)
    requires Shape(s)
    ensures Shape(s') && s'.rest.sizes == s.rest.sizes
  {
    if actions == [] then s else Step(Run(s, actions[..|actions| - 1]), actions[|actions| - 1])
  }

  // ---- one submit ----

  lemma ShownAfter(rings: seq<Ring>, q: nat, r: Ring)
    requires forall i :: 0 <= i < |rings| ==> |rings[i].slots| > 0 && rings[i].consumed <= rings[i].submitted
    requires q < |rings| && |r.slots| > 0 && r.consumed <= r.submitted
    ensures Shown(rings[q := r]) == Shown(rings)[q := Between(r.slots, r.consumed, r.submitted)]
  {
    hide Between;
  }

  /** What becomes visible on a submit: the entry at the place submitted next, whoever wrote it. */
  function Exposed(s: Fine, who: Who): Frame
    requires Shape(s) && RingOf(s, who).Some?
  {
    var r := s.rings[RingOf(s, who).value];
    r.slots[Mod(r.submitted, |r.slots|)]
  }

  lemma SubmitView(s: Fine, who: Who)
    requires Shape(s) && Enabled(s, Submit(who))
    ensures var q, v := RingOf(s, who).value, View(s);
            HeldBy(v, who) == HeldBy(s.rest, who) &&
            View(Step(s, Submit(who))) == Drop(v, who).(fill := v.fill[q := v.fill[q] + [Exposed(s, who)]])
  {
    hide Between;
    hide Mod;
    var q := RingOf(s, who).value;
    var r := s.rings[q];
    ShownAfter(s.rings, q, r.(submitted := r.submitted + 1));
    BetweenJoins(r.slots, r.consumed, r.submitted, r.submitted + 1);
    BetweenOne(r.slots, r.submitted);
  }

  /** Taking a frame from its holder leaves one place. */
  lemma DropPlaces(v: State, who: Who, g: Frame)
    requires v.Shaped() && Owned(v) && HeldBy(v, who).Some? && g.queue < |v.sizes|
    ensures Places(Drop(v, who), g) + (if Some(g) == HeldBy(v, who) then 1 else 0) == Places(v, g)
  {
    hide AtWorkers;
    match who {
      case Thread(q) => UnbatchedPlaces(v, q, g);
      case Worker(w) => AtWorkersAfter(v.workers, w, None, g);
    }
  }

  lemma FillPlaces(v: State, q: nat, e: Frame, g: Frame)
    requires v.Shaped() && g.queue < |v.sizes| && q < |v.sizes| && e.queue == q
    ensures Places(v.(fill := v.fill[q := v.fill[q] + [e]]), g) == Places(v, g) + if g == e then 1 else 0
  {
    hide AtWorkers;
  }

  /** A submit that exposes the releaser's own frame is a release in one step. */
  lemma OwnSubmitIsRelease(s: Fine, who: Who)
    requires Shape(s) && Enabled(s, Submit(who)) && Some(Exposed(s, who)) == HeldBy(s.rest, who)
    ensures View(Step(s, Submit(who)))
         == Pipeline.Step(View(s), match who case Thread(q) => GiveBack(q) case Worker(w) => Done(w))
  {
    hide Between;
    hide Mod;
    var q := RingOf(s, who).value;
    SubmitView(s, who);
    assert |View(s).fill[q]| == s.rings[q].submitted - s.rings[q].consumed < s.rest.sizes[q];
  }

  /** Of all submits, exactly those that expose the releaser's own frame conserve the frames. */
  lemma SubmitConservesExactly(s: Fine, who: Who)
    requires Shape(s) && Conserved(View(s)) && Enabled(s, Submit(who))
    ensures Conserved(View(Step(s, Submit(who)))) <==> Some(Exposed(s, who)) == HeldBy(s.rest, who)
  {
    hide Places;
    hide Owned;
    hide Between;
    hide Step;
    if Some(Exposed(s, who)) == HeldBy(s.rest, who) {
      OwnSubmitIsRelease(s, who);
      StepIsConserved(View(s), match who case Thread(q) => GiveBack(q) case Worker(w) => Done(w));
    } else {
      LostBySubmit(s, who);
    }
  }

  /** Otherwise the releaser's frame is nowhere. */
  lemma LostBySubmit(s: Fine, who: Who)
    requires Shape(s) && Conserved(View(s)) && Enabled(s, Submit(who)) && Some(Exposed(s, who)) != HeldBy(s.rest, who)
    ensures !Conserved(View(Step(s, Submit(who))))
  {
    hide Between;
    hide Places;
    hide AtWorkers;
    hide Step;
    var v, q, f, e := View(s), RingOf(s, who).value, HeldBy(s.rest, who).value, Exposed(s, who);
    SubmitView(s, who);
    HeldIsPlaced(v, who);
    DropPlaces(v, who, f);
    var v' := View(Step(s, Submit(who)));
    if e.queue == q {
      FillPlaces(Drop(v, who), q, e, f);
      assert Places(v', f) == 0;
    } else {
      assert e in v'.fill[q];
    }
  }

  lemma HeldIsPlaced(v: State, who: Who)
    requires Conserved(v) && HeldBy(v, who).Some? && HeldBy(v, who).value.queue < |v.sizes|
    ensures Places(v, HeldBy(v, who).value) == 1 && HeldBy(v, who).value.index < v.sizes[HeldBy(v, who).value.queue]
  {
    hide AtWorkers;
    hide Owned;
    var f := HeldBy(v, who).value;
    match who {
      case Thread(q) => BatchOwned(v, q);
      case Worker(w) => WorkerCounts(v.workers, w);
    }
  }

  lemma BatchOwned(v: State, q: nat)
    requires v.Shaped() && Owned(v) && q < |v.batch| && v.batch[q] != []
    ensures v.batch[q][0].queue == q && multiset(v.batch[q])[v.batch[q][0]] > 0
  {
    assert v.batch[q][0] in v.batch[q];
    Occurs(v.batch[q], v.batch[q][0]);
  }

  // ---- the other steps ----

  /** Begin, reserve and write do not show, as long as a place is written before it is submitted. */
  lemma QuietStep(s: Fine, a: FineAction)
    requires Shape(s) && (a.Begin? || a.Reserve? || a.Write?)
    requires a.Reserve? && Enabled(s, a) ==>
      var r := s.rings[RingOf(s, a.who).value]; r.reserved < r.consumed + |r.slots|
    requires a.Write? && Enabled(s, a) ==>
      var r := s.rings[RingOf(s, a.who).value]; r.submitted <= s.busy[a.who].k < r.consumed + |r.slots|
    ensures View(Step(s, a)) == View(s)
  {
    hide Between;
    hide Mod;
    if Enabled(s, a) && !a.Begin? {
      var q := RingOf(s, a.who).value;
      var r := s.rings[q];
      if a.Write? {
        var k := s.busy[a.who].k;
        BetweenSpared(r.slots, r.consumed, r.submitted, k, HeldBy(s.rest, a.who).value);
        ShownAfter(s.rings, q, r.(slots := r.slots[Mod(k, |r.slots|) := HeldBy(s.rest, a.who).value]));
      } else {
        ShownAfter(s.rings, q, r.(reserved := r.reserved + 1));
      }
    }
  }

  /** Every other step is a step of the pipeline, or does nothing. */
  lemma OtherStep(s: Fine, b: Action)
    requires Shape(s)
    ensures View(Step(s, Other(b))) == if Enabled(s, Other(b)) then Pipeline.Step(View(s), b) else View(s)
  {
    hide Between;
    hide Mod;
    if b.Take? && Enabled(s, Other(b)) {
      var r := s.rings[b.q];
      ShownAfter(s.rings, b.q, r.(consumed := r.consumed + 1));
      BetweenJoins(r.slots, r.consumed, r.consumed + 1, r.submitted);
      BetweenOne(r.slots, r.consumed);
    }
  }

  // ---- releases that do not overlap ----

  /** The releaser has reserved a place and not submitted it yet. */
  predicate Open(s: Fine, who: Who) {
    who in s.busy && s.busy[who] != Wants
  }

  /** Reserving only when no other release to the same ring is open: what a lock per ring would do. */
  ghost predicate Apart(s: Fine, a: FineAction)
    requires Shape(s)
  {
    a.Reserve? && Enabled(s, a) ==> forall who :: Open(s, who) ==> RingOf(s, who) != RingOf(s, a.who)
  }

  /** The open release of a ring has the place that is submitted next. */
  ghost predicate OpenFits(s: Fine, who: Who, q: nat)
    requires Shape(s) && q < |s.rings|
  {
    && Open(s, who) && RingOf(s, who) == Some(q)
    && s.rings[q].reserved == s.rings[q].submitted + 1 && s.busy[who].k == s.rings[q].submitted
    && (s.busy[who].Written? ==> Some(Exposed(s, who)) == HeldBy(s.rest, who))
  }

  /** owners names the open release of each ring, if there is one. */
  ghost predicate Orderly(s: Fine, owners: seq<Option<Who>>)
    requires Shape(s)
  {
    && |owners| == |s.rings|
    && (forall q :: 0 <= q < |owners| && owners[q].None? ==> s.rings[q].reserved == s.rings[q].submitted)
    && (forall q :: 0 <= q < |owners| && owners[q].Some? ==> OpenFits(s, owners[q].value, q))
    && (forall who :: who in s.busy ==> RingOf(s, who).Some?)
    && (forall who :: Open(s, who) ==> owners[RingOf(s, who).value] == Some(who))
  }

  /** A frame being given back stays with its holder through all other steps. */
  lemma HeldStays(s: Fine, b: Action, who: Who)
    requires Shape(s) && Enabled(s, Other(b)) && who in s.busy && HeldBy(s.rest, who).Some?
    ensures HeldBy(Step(s, Other(b)).rest, who) == HeldBy(s.rest, who)
  {
  }

  lemma OtherOrderly(s: Fine, owners: seq<Option<Who>>, b: Action)
    requires Shape(s) && Orderly(s, owners)
    ensures Orderly(Step(s, Other(b)), owners)
  {
    var s' := Step(s, Other(b));
    if Enabled(s, Other(b)) {
      forall who | who in s.busy
        ensures RingOf(s', who) == RingOf(s, who) && HeldBy(s'.rest, who) == HeldBy(s.rest, who)
      {
        HeldStays(s, b, who);
      }
      RingsMove(s, b);
      UnmovedOrderly(s, owners, s');
    }
  }

  lemma RingsMove(s: Fine, b: Action)
    requires Shape(s) && Enabled(s, Other(b))
    ensures var s' := Step(s, Other(b));
            && |s'.rings| == |s.rings| && s'.busy == s.busy
            && forall q :: 0 <= q < |s.rings| ==> s'.rings[q].(consumed := 0) == s.rings[q].(consumed := 0)
  {
  }

  /** What does not touch releases or rings, save for consuming, keeps the order. */
  lemma UnmovedOrderly(s: Fine, owners: seq<Option<Who>>, s': Fine)
    requires Shape(s) && Shape(s') && Orderly(s, owners) && |s'.rings| == |s.rings| && s'.busy == s.busy
    requires forall q :: 0 <= q < |s.rings| ==> s'.rings[q].(consumed := 0) == s.rings[q].(consumed := 0)
    requires forall who :: who in s.busy ==>
               RingOf(s', who) == RingOf(s, who) && HeldBy(s'.rest, who) == HeldBy(s.rest, who)
    ensures Orderly(s', owners)
  {
    hide Mod;
    hide HeldBy;
    forall q | 0 <= q < |owners| && owners[q].Some?
      ensures OpenFits(s', owners[q].value, q)
    {
      assert OpenFits(s, owners[q].value, q);
      assert s'.rings[q].slots == s.rings[q].(consumed := 0).slots;
      assert s'.rings[q].submitted == s.rings[q].(consumed := 0).submitted;
      assert s'.rings[q].reserved == s.rings[q].(consumed := 0).reserved;
    }
  }

  lemma BeginOrderly(s: Fine, owners: seq<Option<Who>>, who: Who)
    requires Shape(s) && Orderly(s, owners)
    ensures Orderly(Step(s, Begin(who)), owners)
  {
    hide Mod;
    hide HeldBy;
    var s' := Step(s, Begin(who));
    forall q | 0 <= q < |owners| && owners[q].Some?
      ensures OpenFits(s', owners[q].value, q)
    {
      assert OpenFits(s, owners[q].value, q);
    }
  }

  /** There is room to reserve, since the frame is not in the ring. */
  lemma RoomToReserve(s: Fine, owners: seq<Option<Who>>, who: Who)
    requires Shape(s) && Orderly(s, owners) && Conserved(View(s))
    requires Enabled(s, Reserve(who)) && Apart(s, Reserve(who))
    ensures owners[RingOf(s, who).value].None?
    ensures var r := s.rings[RingOf(s, who).value];
            r.reserved == r.submitted && r.reserved < r.consumed + |r.slots|
  {
    hide Between;
    hide Places;
    hide AtWorkers;
    hide Owned;
    var v, q := View(s), RingOf(s, who).value;
    var f := HeldBy(v, who).value;
    HeldIsPlaced(v, who);
    HeldIsElsewhere(v, who);
    RoomToRelease(v, f);
    assert |v.fill[q]| == s.rings[q].submitted - s.rings[q].consumed;
  }

  lemma HeldIsElsewhere(v: State, who: Who)
    requires Conserved(v) && HeldBy(v, who).Some? && HeldBy(v, who).value.queue < |v.sizes|
    ensures HeldBy(v, who).value !in v.fill[HeldBy(v, who).value.queue]
  {
    hide AtWorkers;
    hide Places;
    match who {
      case Thread(q) => BatchOwned(v, q);
      case Worker(w) => WorkerCounts(v.workers, w);
    }
    HeldElsewhere(v, HeldBy(v, who).value);
  }

  lemma ReserveOrderly(s: Fine, owners: seq<Option<Who>>, who: Who)
    requires Shape(s) && Orderly(s, owners) && Enabled(s, Reserve(who)) && owners[RingOf(s, who).value].None?
    requires var r := s.rings[RingOf(s, who).value]; r.reserved < r.consumed + |r.slots|
    ensures Orderly(Step(s, Reserve(who)), owners[RingOf(s, who).value := Some(who)])
  {
    hide Mod;
    hide HeldBy;
    var s', mine := Step(s, Reserve(who)), RingOf(s, who).value;
    forall q | 0 <= q < |owners| && q != mine && owners[q].Some?
      ensures OpenFits(s', owners[q].value, q)
    {
      assert OpenFits(s, owners[q].value, q);
    }
  }

  lemma WriteFits(s: Fine, owners: seq<Option<Who>>, who: Who)
    requires Shape(s) && Orderly(s, owners) && Enabled(s, Write(who))
    ensures var r := s.rings[RingOf(s, who).value]; r.submitted <= s.busy[who].k < r.consumed + |r.slots|
  {
    hide Mod;
    hide HeldBy;
    assert Open(s, who) && OpenFits(s, who, RingOf(s, who).value);
  }

  lemma WriteOrderly(s: Fine, owners: seq<Option<Who>>, who: Who)
    requires Shape(s) && Orderly(s, owners) && Enabled(s, Write(who))
    ensures Orderly(Step(s, Write(who)), owners)
  {
    hide Mod;
    hide HeldBy;
    var s', mine := Step(s, Write(who)), RingOf(s, who).value;
    assert Open(s, who) && OpenFits(s, who, mine);
    forall q | 0 <= q < |owners| && owners[q].Some?
      ensures OpenFits(s', owners[q].value, q)
    {
      assert OpenFits(s, owners[q].value, q);
    }
  }

  lemma SubmitOrderly(s: Fine, owners: seq<Option<Who>>, who: Who)
    requires Shape(s) && Orderly(s, owners) && Enabled(s, Submit(who))
    ensures Orderly(Step(s, Submit(who)), owners[RingOf(s, who).value := None])
    ensures Some(Exposed(s, who)) == HeldBy(s.rest, who)
  {
    hide Mod;
    var s', mine := Step(s, Submit(who)), RingOf(s, who).value;
    assert Open(s, who) && OpenFits(s, who, mine);
    OthersHold(s, who);
    hide HeldBy;
    forall q | 0 <= q < |owners| && q != mine && owners[q].Some?
      ensures OpenFits(s', owners[q].value, q)
    {
      assert OpenFits(s, owners[q].value, q);
    }
  }

  lemma OthersHold(s: Fine, who: Who)
    requires Shape(s) && Enabled(s, Submit(who))
    ensures forall x :: x != who ==> HeldBy(Drop(s.rest, who), x) == HeldBy(s.rest, x)
  {
  }

  // ---- runs ----

  predicate AllPositive(sizes: seq<nat>) {
    forall q :: 0 <= q < |sizes| ==> sizes[q] > 0
  }

  /** A fill ring after the initial fill. */
  function Filled(q: nat, n: nat): Ring {
    Ring(Frames(q, n), n, n, 0)
  }

  function FineStart(sizes: seq<nat>, workers: nat): (s: Fine)
    requires AllPositive(sizes)
    ensures Shape(s) && s.rest.sizes == sizes
  {
    FramesCount(sizes);
    Fine(seq(|sizes|, q requires 0 <= q < |sizes| => Filled(q, sizes[q])), Pipeline.Start(sizes, workers), map[])
  }

  lemma FramesCount(sizes: seq<nat>)
    ensures forall q :: 0 <= q < |sizes| ==> |Frames(q, sizes[q])| == sizes[q]
  {
    forall q | 0 <= q < |sizes|
      ensures |Frames(q, sizes[q])| == sizes[q]
    {
      FramesOnce(q, sizes[q], Frame(q, 0));
    }
  }

  lemma BetweenWhole(slots: seq<Frame>)
    requires |slots| > 0
    ensures Between(slots, 0, |slots|) == slots
  {
    hide Mod;
    forall i | 0 <= i < |slots|
      ensures Between(slots, 0, |slots|)[i] == slots[i]
    {
      ModOfSmall(i, |slots|);
    }
  }

  lemma StartIsOrderly(sizes: seq<nat>, workers: nat)
    requires AllPositive(sizes)
    ensures var s := FineStart(sizes, workers);
            View(s) == Pipeline.Start(sizes, workers) && Orderly(s, seq(|sizes|, _ => None))
  {
    hide Between;
    hide Frames;
    FramesCount(sizes);
    var s := FineStart(sizes, workers);
    forall q | 0 <= q < |sizes|
      ensures Shown(s.rings)[q] == Frames(q, sizes[q])
    {
      BetweenWhole(Frames(q, sizes[q]));
    }
    assert Shown(s.rings) == Pipeline.Start(sizes, workers).fill;
  }

  /** Every step of the run reserves only when no other release to that ring is open. */
  ghost predicate AlwaysApart(s: Fine, actions: seq<FineAction>)
    requires Shape(s)
  {
    actions == [] ||
    var before := actions[..|actions| - 1];
    AlwaysApart(s, before) && Apart(Run(s, before), actions[|actions| - 1])
  }

  lemma RingIsOwned(s: Fine, owners: seq<Option<Who>>, who: Who)
    requires Shape(s) && Orderly(s, owners) && (Enabled(s, Reserve(who)) || Enabled(s, Submit(who)))
    ensures RingOf(s, who).Some? && RingOf(s, who).value < |owners|
  {
  }

  lemma StepIsOrderly(s: Fine, owners: seq<Option<Who>>, a: FineAction) returns (after: seq<Option<Who>>)
    requires Shape(s) && Orderly(s, owners) && Conserved(View(s)) && Apart(s, a)
    ensures Orderly(Step(s, a), after) && Conserved(View(Step(s, a)))
  {
    hide Orderly;
    hide Conserved;
    hide Enabled;
    hide View;
    hide Apart;
    after := owners;
    if Enabled(s, a) {
      match a {
        case Other(b) =>
          OtherStep(s, b);
          StepIsConserved(View(s), b);
          OtherOrderly(s, owners, b);
        case Begin(who) =>
          BeginOrderly(s, owners, who);
          QuietStep(s, a);
        case Reserve(who) =>
          RingIsOwned(s, owners, who);
          RoomToReserve(s, owners, who);
          after := owners[RingOf(s, who).value := Some(who)];
          ReserveOrderly(s, owners, who);
          QuietStep(s, a);
        case Write(who) =>
          WriteFits(s, owners, who);
          WriteOrderly(s, owners, who);
          QuietStep(s, a);
        case Submit(who) =>
          RingIsOwned(s, owners, who);
          after := owners[RingOf(s, who).value := None];
          SubmitOrderly(s, owners, who);
          SubmitConservesExactly(s, who);
      }
    }
  }

  lemma {:induction false} ApartIsOrderly(sizes: seq<nat>, workers: nat, actions: seq<FineAction>)
    returns (owners: seq<Option<Who>>)
    requires AllPositive(sizes) && AlwaysApart(FineStart(sizes, workers), actions)
    ensures var s := Run(FineStart(sizes, workers), actions);
            Orderly(s, owners) && Conserved(View(s))
  {
    hide Orderly;
    hide Conserved;
    hide Apart;
    hide View;
    if actions == [] {
      StartIsOrderly(sizes, workers);
      StartIsConserved(sizes, workers);
      owners := seq(|sizes|, _ => None);
    } else {
      var before := actions[..|actions| - 1];
      owners := ApartIsOrderly(sizes, workers, before);
      owners := StepIsOrderly(Run(FineStart(sizes, workers), before), owners, actions[|actions| - 1]);
    }
  }

  /**
   * Through any interleaving in which no two releases to one ring overlap, every receive frame is in
   * exactly one place, and every reserve that a release makes finds room.
   */
  lemma FramesAreConservedApart(sizes: seq<nat>, workers: nat, actions: seq<FineAction>, who: Who)
    requires AllPositive(sizes) && AlwaysApart(FineStart(sizes, workers), actions)
    ensures var s := Run(FineStart(sizes, workers), actions);
            && Conserved(View(s))
            && (Enabled(s, Reserve(who)) && Apart(s, Reserve(who)) ==>
                 var r := s.rings[RingOf(s, who).value]; r.reserved < r.consumed + |r.slots|)
  {
    hide Conserved;
    hide View;
    var owners := ApartIsOrderly(sizes, workers, actions);
    var s := Run(FineStart(sizes, workers), actions);
    hide Orderly;
    hide Apart;
    hide Run;
    if Enabled(s, Reserve(who)) && Apart(s, Reserve(who)) {
      RoomToReserve(s, owners, who);
    }
  }

  // ---- releases that overlap ----

  ghost predicate Reachable(s0: Fine, s: Fine)
    requires Shape(s0)
  {
    exists actions :: Run(s0, actions) == s
  }

  lemma ReachOne(s0: Fine, s: Fine, a: FineAction)
    requires Shape(s0) && Reachable(s0, s) && Shape(s)
    ensures Reachable(s0, Step(s, a))
  {
    hide Step;
    var actions :| Run(s0, actions) == s;
    assert (actions + [a])[..|actions|] == actions;
    assert Run(s0, actions + [a]) == Step(s, a);
  }

  /** One queue of n frames, of which the kernel took j and passed all of them on. */
  ghost predicate Passed(s: Fine, n: nat, j: nat) {
    && Shape(s) && Conserved(View(s)) && s.busy == map[]
    && s.rings == [Ring(Frames(0, n), n, n, j)] && s.rest.sizes == [n]
    && s.rest.kernel == [multiset{}] && s.rest.rx == [[]]
  }

  lemma OtherConserves(s: Fine, b: Action)
    requires Shape(s) && Conserved(View(s))
    ensures Conserved(View(Step(s, Other(b))))
  {
    hide Conserved;
    hide View;
    OtherStep(s, b);
    StepIsConserved(View(s), b);
  }

  lemma FrameAt(n: nat, j: nat)
    requires j < n
    ensures |Frames(0, n)| == n && Frames(0, n)[j] == Frame(0, j)
  {
    FramesOnce(0, n, Frame(0, 0));
    if j < n - 1 {
      FrameAt(n - 1, j);
      FramesOnce(0, n - 1, Frame(0, 0));
    } else {
      FramesOnce(0, n - 1, Frame(0, 0));
    }
  }

  lemma TakeNext(s: Fine, n: nat, j: nat)
    requires Passed(s, n, j) && j < n
    ensures var s' := Step(s, Other(Take(0)));
            && Conserved(View(s')) && s'.rings == [Ring(Frames(0, n), n, n, j + 1)]
            && s' == s.(rings := s'.rings, rest := s'.rest) && s'.rest.kernel == [multiset{Frame(0, j)}]
            && s'.rest == s.rest.(fill := s'.rest.fill, kernel := s'.rest.kernel)
  {
    hide Conserved;
    hide Between;
    hide Mod;
    hide Frames;
    FrameAt(n, j);
    ModOfSmall(j, n);
    BetweenJoins(Frames(0, n), j, j + 1, n);
    BetweenOne(Frames(0, n), j);
    assert View(s).fill[0][0] == Frame(0, j);
    OtherConserves(s, Take(0));
    assert s.rest.kernel[0] + multiset{Frame(0, j)} == multiset{Frame(0, j)};
  }

  lemma DeliverNext(s: Fine, f: Frame)
    requires Shape(s) && Conserved(View(s)) && |s.rings| == 1 && s.rest.kernel == [multiset{f}] && s.rest.rx == [[]]
    ensures var s' := Step(s, Other(Deliver(0, f)));
            && Conserved(View(s')) && s' == s.(rest := s'.rest)
            && s'.rest == s.rest.(fill := s'.rest.fill, kernel := [multiset{}], rx := [[f]])
  {
    hide Conserved;
    hide Between;
    OtherConserves(s, Deliver(0, f));
    assert s.rest.kernel[0] - multiset{f} == multiset{};
    assert s.rest.rx[0] + [f] == [f];
  }

  lemma ReceiveNext(s: Fine, f: Frame)
    requires Shape(s) && Conserved(View(s)) && |s.rings| == 1 && s.rest.rx == [[f]] && s.rest.batch == [[]]
    ensures var s' := Step(s, Other(Receive(0, 1)));
            && Conserved(View(s')) && s' == s.(rest := s'.rest)
            && s'.rest == s.rest.(fill := s'.rest.fill, rx := [[]], batch := [[f]])
  {
    hide Conserved;
    hide Between;
    OtherConserves(s, Receive(0, 1));
    assert [f][1..] == [] && [f][..1] == [f];
  }

  /** Three steps bring the next frame to an empty batch. */
  lemma Arrives(s0: Fine, s: Fine, n: nat, j: nat) returns (s': Fine)
    requires Shape(s0) && Reachable(s0, s) && Passed(s, n, j) && j < n && s.rest.batch == [[]]
    ensures Reachable(s0, s') && Passed(s', n, j + 1)
    ensures s'.rest.batch == [[Frame(0, j)]] && s'.rest.ring == s.rest.ring && s'.rest.workers == s.rest.workers
  {
    hide Conserved;
    hide Reachable;
    hide Frames;
    hide View;
    hide Step;
    var f := Frame(0, j);
    TakeNext(s, n, j);
    ReachOne(s0, s, Other(Take(0)));
    var s1 := Step(s, Other(Take(0)));
    DeliverNext(s1, f);
    ReachOne(s0, s1, Other(Deliver(0, f)));
    var s2 := Step(s1, Other(Deliver(0, f)));
    ReceiveNext(s2, f);
    ReachOne(s0, s2, Other(Receive(0, 1)));
    s' := Step(s2, Other(Receive(0, 1)));
  }

  lemma HandNext(s: Fine, f: Frame)
    requires Shape(s) && Conserved(View(s)) && |s.rings| == 1 && s.busy == map[]
    requires s.rest.batch == [[f]] && |s.rest.ring| < WorkerRingSize - 1
    ensures var s' := Step(s, Other(Hand(0)));
            && Conserved(View(s')) && s' == s.(rest := s'.rest)
            && s'.rest == s.rest.(fill := s'.rest.fill, batch := [[]], ring := s.rest.ring + [f])
  {
    hide Conserved;
    hide Between;
    OtherConserves(s, Hand(0));
    assert [f][1..] == [];
  }

  lemma FetchNext(s: Fine, f: Frame)
    requires Shape(s) && Conserved(View(s)) && s.rest.ring == [f] && s.rest.workers == [None]
    ensures var s' := Step(s, Other(Fetch(0)));
            && Conserved(View(s')) && s' == s.(rest := s'.rest)
            && s'.rest == s.rest.(fill := s'.rest.fill, ring := [], workers := [Some(f)])
  {
    hide Conserved;
    hide Between;
    OtherConserves(s, Fetch(0));
    assert [f][1..] == [];
  }

  /** The worker has frame 0, and frames 1 to j - 1 wait in the worker ring. */
  lemma {:induction false} Fed(n: nat, j: nat) returns (s: Fine)
    requires 1 <= j <= WorkerRingSize && j < n
    ensures Reachable(FineStart([n], 1), s) && Passed(s, n, j) && s.rest.batch == [[]]
    ensures |s.rest.ring| == j - 1 && s.rest.workers == [Some(Frame(0, 0))]
  {
    hide Conserved;
    hide Reachable;
    hide Frames;
    hide View;
    hide Step;
    var s0 := FineStart([n], 1);
    if j == 1 {
      Starts(n);
      var s1 := Arrives(s0, s0, n, 0);
      HandNext(s1, Frame(0, 0));
      ReachOne(s0, s1, Other(Hand(0)));
      var s2 := Step(s1, Other(Hand(0)));
      FetchNext(s2, Frame(0, 0));
      ReachOne(s0, s2, Other(Fetch(0)));
      s := Step(s2, Other(Fetch(0)));
    } else {
      s := Fed(n, j - 1);
      var s1 := Arrives(s0, s, n, j - 1);
      HandNext(s1, Frame(0, j - 1));
      ReachOne(s0, s1, Other(Hand(0)));
      s := Step(s1, Other(Hand(0)));
    }
  }

  lemma Starts(n: nat)
    requires n > 0
    ensures var s := FineStart([n], 1);
            && Reachable(s, s) && Passed(s, n, 0)
            && s.rest.batch == [[]] && s.rest.ring == [] && s.rest.workers == [None]
  {
    hide Conserved;
    var s := FineStart([n], 1);
    StartIsOrderly([n], 1);
    StartIsConserved([n], 1);
    assert Run(s, []) == s;
  }

  /** Both releases begin and reserve, the worker first. */
  lemma BothReserve(s: Fine, n: nat)
    requires Shape(s) && s.busy == map[] && |s.rings| == 1 && RingOf(s, Worker(0)) == RingOf(s, Thread(0)) == Some(0)
    requires |s.rest.ring| >= WorkerRingSize - 1 && |s.rings[0].slots| == n
    requires s.rings[0].reserved == s.rings[0].submitted == n && s.rings[0].consumed >= 2
    ensures var w, t := Worker(0), Thread(0);
            var s2 := Step(Step(s, Begin(w)), Begin(t));
            var s4 := Step(Step(s2, Reserve(w)), Reserve(t));
            && View(s4) == View(s)
            && s4 == s.(rings := [s.rings[0].(reserved := n + 2)], busy := map[w := Reserved(n), t := Reserved(n + 1)])
  {
    hide View;
    hide HeldBy;
    var w, t := Worker(0), Thread(0);
    var s1 := Step(s, Begin(w));
    QuietStep(s, Begin(w));
    assert s1 == s.(busy := map[w := Wants]) && RingOf(s1, t) == Some(0);
    var s2 := Step(s1, Begin(t));
    QuietStep(s1, Begin(t));
    assert s2 == s.(busy := map[w := Wants, t := Wants]) && RingOf(s2, w) == Some(0);
    var s3 := Step(s2, Reserve(w));
    QuietStep(s2, Reserve(w));
    assert s3.rings == [s.rings[0].(reserved := n + 1)];
    assert s3 == s.(rings := s3.rings, busy := map[w := Reserved(n), t := Wants]) && RingOf(s3, t) == Some(0);
    QuietStep(s3, Reserve(t));
    assert Step(s3, Reserve(t)).rings == [s.rings[0].(reserved := n + 2)];
  }

  /** The thread writes its own place and submits the worker's. */
  lemma SubmitsOther(s: Fine, n: nat)
    requires Shape(s) && Conserved(View(s)) && |s.rings| == 1 && RingOf(s, Thread(0)) == Some(0) && n > 1
    requires var r := s.rings[0]; |r.slots| == n && r.submitted == n && r.reserved == n + 2 && r.consumed >= 2
    requires Thread(0) in s.busy && s.busy[Thread(0)] == Reserved(n + 1)
    requires Some(s.rings[0].slots[0]) != HeldBy(s.rest, Thread(0))
    ensures !Conserved(View(Step(Step(s, Write(Thread(0))), Submit(Thread(0)))))
  {
    hide Conserved;
    hide View;
    hide Between;
    hide Mod;
    var t := Thread(0);
    var s1 := Step(s, Write(t));
    QuietStep(s, Write(t));
    ModIsUnique(n + 1, n, 1, 1);
    ModIsUnique(n, n, 1, 0);
    assert s1.rings[0].slots[0] == s.rings[0].slots[0];
    LostBySubmit(s1, t);
  }

  lemma Overlap(s0: Fine, s: Fine, n: nat) returns (s': Fine)
    requires n > WorkerRingSize && Shape(s0) && Reachable(s0, s) && Passed(s, n, WorkerRingSize + 1)
    requires s.rest.batch == [[Frame(0, WorkerRingSize)]] && |s.rest.ring| == WorkerRingSize - 1
    requires s.rest.workers == [Some(Frame(0, 0))]
    ensures Shape(s') && Reachable(s0, s') && !Conserved(View(s'))
  {
    hide Conserved;
    hide Reachable;
    hide Frames;
    hide View;
    var w, t := Worker(0), Thread(0);
    FrameAt(n, 0);
    BothReserve(s, n);
    hide Step;
    var s1 := Step(s, Begin(w));
    ReachOne(s0, s, Begin(w));
    var s2 := Step(s1, Begin(t));
    ReachOne(s0, s1, Begin(t));
    var s3 := Step(s2, Reserve(w));
    ReachOne(s0, s2, Reserve(w));
    var s4 := Step(s3, Reserve(t));
    ReachOne(s0, s3, Reserve(t));
    SubmitsOther(s4, n);
    var s5 := Step(s4, Write(t));
    ReachOne(s0, s4, Write(t));
    s' := Step(s5, Submit(t));
    ReachOne(s0, s5, Submit(t));
  }

  /**
   * Without a lock per ring the claim fails: with the worker ring full, a worker reserves a place,
   * then the packet thread reserves, writes and submits - and submits the worker's place, which
   * still holds the frame the worker has. The thread's own frame is then nowhere.
   */
  lemma OverlapLosesFrame(n: nat)
    requires n > WorkerRingSize
    ensures exists actions :: !Conserved(View(Run(FineStart([n], 1), actions)))
  {
    hide Conserved;
    hide Reachable;
    hide Frames;
    hide View;
    hide Step;
    var s0 := FineStart([n], 1);
    var fed := Fed(n, WorkerRingSize);
    var s := Arrives(s0, fed, n, WorkerRingSize);
    var s' := Overlap(s0, s, n);
    Unreached(s0, s');
  }

  lemma Unreached(s0: Fine, s: Fine)
    requires Shape(s0) && Shape(s) && Reachable(s0, s) && !Conserved(View(s))
    ensures exists actions :: !Conserved(View(Run(s0, actions)))
  {
    hide Conserved;
    hide View;
    hide Run;
    var actions :| Run(s0, actions) == s;
    assert !Conserved(View(Run(s0, actions)));
  }
}
