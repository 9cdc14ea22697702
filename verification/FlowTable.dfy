/** Byte-window WAN rotation per IP pair (src/core/flow_table.c). */
module FlowTable {
  import opened Bytes
  import opened HashTable
  import opened Remainders

  const TableSize := 16384
  const TimeoutSec := 60
  const MaxWans := 16

  // ---- keys ----

  type Pair = (u32, u32)

  predicate After(a: u32, b: u32) {
    Ntohl(a) > Ntohl(b)
  }

  /** Addresses are totally ordered by their host-order value. */
  lemma AfterIsTotal(a: u32, b: u32)
    ensures if a == b then !After(a, b) else (After(a, b) <==> !After(b, a))
  {
    hide Ntohl;
    NtohlTwice(a);
    NtohlTwice(b);
  }

  /** normalize_flow_ips. */
  function Normal(src: u32, dst: u32): Pair {
    if After(src, dst) then (dst, src) else (src, dst)
  }

  /** Two address pairs share a key exactly when they are the same pair up to direction. */
  lemma NormalIsUnordered(a: u32, b: u32, c: u32, d: u32)
    ensures Normal(a, b) == Normal(c, d) <==> (a, b) == (c, d) || (a, b) == (d, c)
  {
    hide After;
    AfterIsTotal(a, b);
    AfterIsTotal(c, d);
  }

  /** The smaller address in host order comes first. */
  lemma NormalAscends(src: u32, dst: u32)
    ensures var k := Normal(src, dst);
            Ntohl(k.0) <= Ntohl(k.1) && multiset{k.0, k.1} == multiset{src, dst}
  {
    hide Ntohl;
  }

  /** flow_hash_ips before its final modulus. */
  function HashIps(k: Pair): nat {
    var h0 := k.0 as bv32 ^ k.1 as bv32;
    var h1 := h0 ^ (h0 >> 16);
    var h2 := h1 * 0x85ebca6b;
    var h3 := h2 ^ (h2 >> 13);
    var h4 := h3 * 0xc2b2ae35;
    (h4 ^ (h4 >> 16)) as nat
  }

  // ---- one rotator ----

  datatype Rotor = Rotor(byteCount: u32, wan: int, lastSeen: u64)

  /** The WANs and the bytes each carries before a flow moves on; 0 means no limit. */
  datatype Windows = Windows(count: nat, sizes: seq<u32>) {
    predicate Valid() { count <= MaxWans == |sizes| }

    function Limit(wan: int): nat
      requires Valid()
    {
      if 0 <= wan < count then sizes[wan] else 0
    }

    /** A WAN that get_next_wan may hand to a new flow. */
    predicate Starts(wan: int) { 0 <= wan && (wan < count || wan == 0) }
  }

  const IntMin := -0x8000_0000

  /**
   * get_next_wan at counter value c: the remainder of its absolute value, except that the smallest
   * 32-bit integer is its own negative, and that C's remainder has the sign of the dividend.
   */
  function NextWan(c: int, count: int): int {
    if count <= 0 then 0
    else if c == IntMin then -(0x8000_0000 % count)
    else (if c < 0 then -c else c) % count
  }

  /** The 32-bit counter behind it moves on, unless there is no WAN. */
  function Advanced(c: int, count: int): int {
    if count <= 0 then c else if c == 0x7FFF_FFFF then IntMin else c + 1
  }

  /** A new flow starts on a WAN that exists, except at that counter value unless the WANs divide it. */
  lemma NextWanStarts(w: Windows, c: int)
    requires w.Valid() && IntMin <= c < 0x8000_0000
    ensures w.Starts(NextWan(c, w.count)) <==> c != IntMin || w.count <= 0 || 0x8000_0000 % w.count == 0
  {
    if w.count > 0 && c == IntMin {
      assert 0 <= 0x8000_0000 % w.count < w.count;
    }
  }

  /** A packet of len octets at time now; a new flow starts on WAN start. */
  function Next(w: Windows, r: Option<Rotor>, len: u32, now: u64, start: int): Rotor
    requires w.Valid()
  {
    match r
    case None => Rotor(len, start, now)
    case Some(e) =>
      var bytes := (e.byteCount + len) % 0x1_0000_0000;
      if 0 < w.Limit(e.wan) <= bytes then Rotor(0, (e.wan + 1) % w.count, now) else Rotor(bytes, e.wan, now)
  }

  /** The unsigned age test of flow_table_gc. */
  predicate Expired(now: u64, r: Rotor) {
    (now - r.lastSeen) % 0x1_0000_0000_0000_0000 > TimeoutSec
  }

  /** At most 60 seconds from stamp to now, on a clock of 64 bits. */
  predicate Recent(stamp: u64, now: u64) {
    if stamp <= now then now - stamp <= 60 else now + 0x1_0000_0000_0000_0000 - stamp <= 60
  }

  lemma ExpiredExactly(now: u64, r: Rotor)
    ensures Expired(now, r) <==> !Recent(r.lastSeen, now)
  {
  }

  /** A new flow counts its first packet on the WAN it starts on; later ones add up until they fill a window. */
  predicate Advances(w: Windows, r: Option<Rotor>, len: u32, now: u64, start: int, r': Rotor)
    requires w.Valid()
  {
    && r'.lastSeen == now
    && match r
       case None => r'.byteCount == len && r'.wan == start
       case Some(e) =>
         var bytes := (e.byteCount as int + len as int) % 0x1_0000_0000;
         if 0 <= e.wan < w.count && w.sizes[e.wan] > 0 && bytes >= w.sizes[e.wan]
         then r'.byteCount == 0 && r'.wan == (if e.wan + 1 == w.count then 0 else e.wan + 1)
         else r'.byteCount == bytes && r'.wan == e.wan
  }

  lemma NextAdvances(w: Windows, r: Option<Rotor>, len: u32, now: u64, start: int)
    requires w.Valid()
    ensures Advances(w, r, len, now, start, Next(w, r, len, now, start))
  {
    if r.Some? && 0 <= r.value.wan < w.count {
      WrapsAtEnd(r.value.wan, w.count);
    }
  }

  lemma WrapsAtEnd(wan: nat, count: nat)
    requires wan < count
    ensures (wan + 1) % count == if wan + 1 == count then 0 else wan + 1
  {
  }

  function Sum(lens: seq<u32>): nat {
    if lens == [] then 0 else Sum(lens[..|lens| - 1]) + lens[|lens| - 1]
  }

  /** The rotator after a flow's next packets. */
  function Feed(w: Windows, r: Rotor, lens: seq<u32>): Rotor
    requires w.Valid()
  {
    if lens == [] then r
    else Next(w, Some(Feed(w, r, lens[..|lens| - 1])), lens[|lens| - 1], r.lastSeen, 0)
  }

  lemma NextHolds(w: Windows, r: Rotor, len: u32, now: u64)
    requires w.Valid() && r.byteCount + len < 0x1_0000_0000
    requires w.Limit(r.wan) == 0 || r.byteCount + len < w.Limit(r.wan)
    ensures Next(w, Some(r), len, now, 0) == Rotor(r.byteCount + len, r.wan, now)
  {
  }

  /** While the bytes stay below the window, the flow stays on its WAN. */
  lemma {:induction false} WindowHolds(w: Windows, r: Rotor, lens: seq<u32>)
    requires w.Valid() && r.byteCount + Sum(lens) < 0x1_0000_0000
    requires w.Limit(r.wan) == 0 || r.byteCount + Sum(lens) < w.Limit(r.wan)
    ensures Feed(w, r, lens) == Rotor(r.byteCount + Sum(lens), r.wan, r.lastSeen)
  {
    hide Next;
    if lens != [] {
      WindowHolds(w, r, lens[..|lens| - 1]);
      NextHolds(w, Feed(w, r, lens[..|lens| - 1]), lens[|lens| - 1], r.lastSeen);
    }
  }

  lemma FeedOne(w: Windows, r: Rotor, lens: seq<u32>, len: u32)
    requires w.Valid()
    ensures Feed(w, r, lens + [len]) == Next(w, Some(Feed(w, r, lens)), len, r.lastSeen, 0)
  {
    hide Next;
    assert (lens + [len])[..|lens|] == lens;
  }

  /** The packet that fills the window moves the flow to the next WAN and empties the count. */
  lemma WindowFills(w: Windows, r: Rotor, lens: seq<u32>, len: u32)
    requires w.Valid() && r.byteCount + Sum(lens) + len < 0x1_0000_0000
    requires r.byteCount + Sum(lens) < w.Limit(r.wan) <= r.byteCount + Sum(lens) + len
    ensures Feed(w, r, lens + [len]) == Rotor(0, (r.wan + 1) % w.count, r.lastSeen)
  {
    hide Feed;
    hide Sum;
    WindowHolds(w, r, lens);
    FeedOne(w, r, lens, len);
  }

  // ---- the table ----

  datatype Op = Packet(src: u32, dst: u32, len: u32, now: u64, start: int) | Gc(now: u64)

  function Lookup(m: map<Pair, Rotor>, k: Pair): Option<Rotor> {
    if k in m then Some(m[k]) else None
  }

  /** One call, on the table as a map. */
  ghost function Apply(w: Windows, m: map<Pair, Rotor>, op: Op): map<Pair, Rotor>
    requires w.Valid()
  {
    match op
    case Packet(src, dst, len, now, start) =>
      var k := Normal(src, dst);
      m[k := Next(w, Lookup(m, k), len, now, start)]
    case Gc(now) =>
      map k | k in m && !Expired(now, m[k]) :: m[k]
  }

  ghost function Run(w: Windows, m: map<Pair, Rotor>, ops: seq<Op>): map<Pair, Rotor>
    requires w.Valid()
  {
    if ops == [] then m else Apply(w, Run(w, m, ops[..|ops| - 1]), ops[|ops| - 1])
  }

  /** One call as the pair k alone sees it. */
  function ApplyOne(w: Windows, k: Pair, r: Option<Rotor>, op: Op): Option<Rotor>
    requires w.Valid()
  {
    match op
    case Packet(src, dst, len, now, start) =>
      if Normal(src, dst) == k then Some(Next(w, r, len, now, start)) else r
    case Gc(now) =>
      if r.Some? && Expired(now, r.value) then None else r
  }

  function RunOne(w: Windows, k: Pair, r: Option<Rotor>, ops: seq<Op>): Option<Rotor>
    requires w.Valid()
  {
    if ops == [] then r else ApplyOne(w, k, RunOne(w, k, r, ops[..|ops| - 1]), ops[|ops| - 1])
  }

  /** Over any run, every pair has its own rotator: other pairs' packets do not disturb it. */
  lemma {:induction false} PairsAreIndependent(w: Windows, m: map<Pair, Rotor>, ops: seq<Op>, k: Pair)
    requires w.Valid()
    ensures Lookup(Run(w, m, ops), k) == RunOne(w, k, Lookup(m, k), ops)
  {
    hide Normal;
    hide Next;
    hide Expired;
    if ops != [] {
      PairsAreIndependent(w, m, ops[..|ops| - 1], k);
    }
  }

  /** A flow is always on a WAN it may be on. */
  lemma {:induction false} RunStaysInRange(w: Windows, ops: seq<Op>)
    requires w.Valid() && forall i :: 0 <= i < |ops| && ops[i].Packet? ==> w.Starts(ops[i].start)
    ensures forall k :: k in Run(w, map[], ops) ==> w.Starts(Run(w, map[], ops)[k].wan)
  {
    hide Normal;
    hide Expired;
    if ops != [] {
      RunStaysInRange(w, ops[..|ops| - 1]);
    }
  }

  /** Packet i of a run got the WAN that its own pair's rotator gives. */
  predicate OwnWan(w: Windows, m: map<Pair, Rotor>, ops: seq<Op>, i: nat, wan: int)
    requires w.Valid() && i < |ops| && ops[i].Packet?
  {
    var k := Normal(ops[i].src, ops[i].dst);
    var r := RunOne(w, k, Lookup(m, k), ops[..i + 1]);
    r.Some? && wan == r.value.wan
  }

  lemma ServedOne(w: Windows, m: map<Pair, Rotor>, ops: seq<Op>, i: nat)
    requires w.Valid() && i < |ops| && ops[i].Packet?
    ensures var k, after := Normal(ops[i].src, ops[i].dst), Run(w, m, ops[..i + 1]);
            k in after ==> OwnWan(w, m, ops, i, after[k].wan)
  {
    hide Run;
    hide RunOne;
    hide Normal;
    PairsAreIndependent(w, m, ops[..i + 1], Normal(ops[i].src, ops[i].dst));
  }

  // ---- runs with the counter of get_next_wan ----

  datatype Call = Arrives(src: u32, dst: u32, len: u32, now: u64) | Sweeps(now: u64)

  /** The calls with the WAN a new flow would start on, when the counter starts at c; and the counter after them. */
  ghost function Counted(w: Windows, m: map<Pair, Rotor>, c: int, calls: seq<Call>): (r: (seq<Op>, int))
    requires w.Valid()
    ensures |r.0| == |calls|
    ensures forall i :: 0 <= i < |calls| ==> (r.0[i].Packet? <==> calls[i].Arrives?)
  {
    if calls == [] then ([], c)
    else
      var (ops, n) := Counted(w, m, c, calls[..|calls| - 1]);
      match calls[|calls| - 1]
      case Sweeps(now) => (ops + [Gc(now)], n)
      case Arrives(src, dst, len, now) =>
        (ops + [Packet(src, dst, len, now, NextWan(n, w.count))],
         if Normal(src, dst) in Run(w, m, ops) then n else Advanced(n, w.count))
  }

  /** Up to 2^31 calls from a counter of zero put every flow on a WAN that exists. */
  lemma CountedStaysInRange(w: Windows, calls: seq<Call>)
    requires w.Valid() && |calls| <= 0x8000_0000
    ensures var m := Run(w, map[], Counted(w, map[], 0, calls).0);
            forall k :: k in m ==> w.Starts(m[k].wan)
  {
    hide Run;
    CountedStarts(w, calls);
    RunStaysInRange(w, Counted(w, map[], 0, calls).0);
  }

  lemma {:induction false} CountedStarts(w: Windows, calls: seq<Call>)
    requires w.Valid() && |calls| <= 0x8000_0000
    ensures var (ops, n) := Counted(w, map[], 0, calls);
            && (0 <= n <= |calls| || (n == IntMin && |calls| == 0x8000_0000))
            && forall i :: 0 <= i < |ops| && ops[i].Packet? ==> w.Starts(ops[i].start)
  {
    hide Run;
    hide Normal;
    if calls != [] {
      var before := calls[..|calls| - 1];
      CountedStarts(w, before);
      NextWanStarts(w, Counted(w, map[], 0, before).1);
    }
  }

  // ---- new flows are spread ----

  lemma NextWanIsMod(c: int, count: nat)
    requires IntMin < c && count > 0
    ensures NextWan(c, count) == Mod(if c < 0 then -c else c, count)
  {
  }

  /** Where the k-th new flow after counter value c starts. */
  function StartAfter(c: int, count: int, k: nat): int {
    NextWan(c + k, count)
  }

  /** Away from its wrap the counter meets every WAN once in as many values as there are WANs. */
  lemma StartsSpread(c: int, count: nat, wan: nat)
    requires wan < count && ((0 <= c && c + count < 0x8000_0000) || (IntMin < c && c + count <= 0))
    ensures exists k: nat :: k < count && StartAfter(c, count, k) == wan
    ensures forall j: nat, k: nat :: j < k < count ==> StartAfter(c, count, j) != StartAfter(c, count, k)
  {
    hide NextWan;
    hide Mod;
    forall k: nat | k < count
      ensures StartAfter(c, count, k) == Mod(if c < 0 then -c - k else c + k, count)
    {
      NextWanIsMod(c + k, count);
    }
    var low := if c < 0 then -c - count + 1 else c;
    var d := Reaching(low, count, wan);
    var k: nat := if c < 0 then count - 1 - d else d;
    assert StartAfter(c, count, k) == wan;
    forall i: nat, j: nat | i < j < count
      ensures StartAfter(c, count, i) != StartAfter(c, count, j)
    {
      var smaller := if c < 0 then -c - j else c + i;
      ModSeparates(smaller, j - i, count);
    }
  }

  lemma Reaching(c: nat, count: nat, wan: nat) returns (k: nat)
    requires wan < count
    ensures k < count && Mod(c + k, count) == wan
  {
    hide Mod;
    hide Div;
    DivMod(c, count);
    if wan >= Mod(c, count) {
      k := wan - Mod(c, count);
      ModIsUnique(c + k, count, Div(c, count), wan);
    } else {
      k := wan + count - Mod(c, count);
      NextMultiple(Div(c, count), count);
      ModIsUnique(c + k, count, Div(c, count) + 1, wan);
    }
  }

  /** How many calls of a run from an empty table brought a pair that was not there. */
  ghost function NewPairs(w: Windows, calls: seq<Call>): nat
    requires w.Valid()
  {
    if calls == [] then 0
    else
      var before, call := calls[..|calls| - 1], calls[|calls| - 1];
      NewPairs(w, before)
        + if call.Arrives? && Normal(call.src, call.dst) !in Run(w, map[], Counted(w, map[], 0, before).0) then 1 else 0
  }

  /** From a new table, whatever arrives, the n-th new pair starts on WAN n modulo the number of WANs. */
  lemma {:induction false} NthPairStarts(w: Windows, calls: seq<Call>, i: nat)
    requires w.Valid() && w.count > 0 && |calls| < 0x8000_0000 && i < |calls| && calls[i].Arrives?
    ensures Counted(w, map[], 0, calls).0[i].start == Mod(NewPairs(w, calls[..i]), w.count)
  {
    hide Run;
    hide NewPairs;
    var before := calls[..|calls| - 1];
    if i < |before| {
      NthPairStarts(w, before, i);
      assert before[..i] == calls[..i];
    } else {
      CountsNewPairs(w, before);
    }
  }

  lemma {:induction false} CountsNewPairs(w: Windows, calls: seq<Call>)
    requires w.Valid() && w.count > 0 && |calls| < 0x8000_0000
    ensures Counted(w, map[], 0, calls).1 == NewPairs(w, calls) <= |calls|
  {
    hide Run;
    hide Normal;
    if calls != [] {
      CountsNewPairs(w, calls[..|calls| - 1]);
    }
  }

  // ---- when a pair is there ----

  /** Step i brought a packet of the pair at time t; no later step brought another or swept it away. */
  ghost predicate LastAt(ops: seq<Op>, k: Pair, i: nat, t: u64) {
    && i < |ops| && Brings(ops[i], k) && ops[i].now == t
    && forall m :: i < m < |ops| ==> !Brings(ops[m], k) && !(ops[m].Gc? && !Recent(t, ops[m].now))
  }

  predicate Brings(op: Op, k: Pair) {
    op.Packet? && ((op.src, op.dst) == k || (op.dst, op.src) == k)
  }

  /** Over any run a pair is in the table if and only if it had a packet that no sweep came too late for. */
  lemma {:induction false} PairIsThereExactly(w: Windows, ops: seq<Op>, src: u32, dst: u32, t: u64)
    requires w.Valid()
    ensures var m, k := Run(w, map[], ops), Normal(src, dst);
            k in m && m[k].lastSeen == t <==> exists i: nat :: LastAt(ops, (src, dst), i, t)
  {
    hide Normal;
    hide Next;
    hide Expired;
    hide Recent;
    if ops != [] {
      var n := |ops| - 1;
      var rest, op := ops[..n], ops[n];
      var k := Normal(src, dst);
      PairIsThereExactly(w, rest, src, dst, t);
      LastAtStep(ops, (src, dst), t);
      if op.Packet? {
        NormalIsUnordered(op.src, op.dst, src, dst);
        NextAdvances(w, Lookup(Run(w, map[], rest), k), op.len, op.now, op.start);
      } else if k in Run(w, map[], rest) {
        ExpiredExactly(op.now, Run(w, map[], rest)[k]);
      }
    }
  }

  lemma LastAtStep(ops: seq<Op>, k: Pair, t: u64)
    requires ops != []
    ensures var rest, op := ops[..|ops| - 1], ops[|ops| - 1];
            (exists i: nat :: LastAt(ops, k, i, t)) <==>
              if Brings(op, k) then op.now == t
              else (exists i: nat :: LastAt(rest, k, i, t)) && !(op.Gc? && !Recent(t, op.now))
  {
    hide Brings;
    hide Recent;
    var n := |ops| - 1;
    var rest, op := ops[..n], ops[n];
    if Brings(op, k) && op.now == t {
      assert LastAt(ops, k, n, t);
    }
    if i: nat :| LastAt(ops, k, i, t) {
      if i < n {
        assert LastAt(rest, k, i, t);
      }
    }
    if !Brings(op, k) && !(op.Gc? && !Recent(t, op.now)) {
      if i: nat :| LastAt(rest, k, i, t) {
        assert LastAt(ops, k, i, t);
      }
    }
  }

  class FlowTable {
    /** next_wan. */
    var nextWan: int
    const windows: Windows
    const table: Table<Pair, Rotor>

    ghost predicate Valid()
      reads this, table, table.repr
    {
      && windows.Valid() && IntMin <= nextWan < 0x8000_0000
      && this !in table.repr && table.Valid() && table.buckets.Length == TableSize && table.hash == HashIps
    }

    constructor (windows: Windows)
      requires windows.Valid()
      ensures Valid() && fresh(table.repr) && table.entries == map[] && this.windows == windows && nextWan == 0
    {
      this.windows := windows;
      nextWan := 0;
      table := new Table<Pair, Rotor>(TableSize, HashIps);
    }

    /** flow_table_get_wan; a new flow takes the next WAN of the counter. */
    method GetWan(src: u32, dst: u32, len: u32, now: u64) returns (wan: int)
      requires Valid()
      modifies this`nextWan, table.repr
      ensures Valid() && fresh(table.repr - old(table.repr))
      ensures var start := NextWan(old(nextWan), windows.count);
              table.entries == Apply(windows, old(table.entries), Packet(src, dst, len, now, start))
      ensures nextWan == if Normal(src, dst) in old(table.entries) then old(nextWan)
                         else Advanced(old(nextWan), windows.count)
      ensures wan == table.entries[Normal(src, dst)].wan
      ensures Advances(windows, Lookup(old(table.entries), Normal(src, dst)), len, now,
                       NextWan(old(nextWan), windows.count), table.entries[Normal(src, dst)])
    {
      hide HashIps;
      hide Normal;
      hide Advances;
      hide Table.Valid;
      var k := Normal(src, dst);
      NextAdvances(windows, Lookup(table.entries, k), len, now, NextWan(nextWan, windows.count));
      var e := table.Find(k);
      if e != null {
        var bytes := (e.val.byteCount + len) % 0x1_0000_0000;
        var limit := 0;
        if 0 <= e.val.wan < windows.count {
          limit := windows.sizes[e.val.wan];
        }
        wan := e.val.wan;
        if limit > 0 && bytes >= limit {
          bytes := 0;
          wan := (wan + 1) % windows.count;
        }
        table.Store(e, Rotor(bytes, wan, now));
        return;
      }
      wan := NextWan(nextWan, windows.count);
      nextWan := Advanced(nextWan, windows.count);
      table.Insert(k, Rotor(len, wan, now));
    }

    /** flow_table_gc. */
    method Gc(now: u64)
      requires Valid()
      modifies table.repr
      ensures Valid() && table.repr == old(table.repr)
      ensures table.entries == Apply(windows, old(table.entries), Op.Gc(now))
      ensures forall k :: k in old(table.entries) ==>
                (k in table.entries <==> Recent(old(table.entries)[k].lastSeen, now))
    {
      hide HashIps;
      hide Table.Valid;
      hide Expired;
      hide Recent;
      ghost var before := table.entries;
      forall k | k in before
        ensures Expired(now, before[k]) <==> !Recent(before[k].lastSeen, now)
      {
        ExpiredExactly(now, before[k]);
      }
      table.RemoveIf(r => Expired(now, r));
    }

    /** Any sequence of calls, with the WAN each packet got. */
    method Serve(calls: seq<Call>) returns (wans: seq<int>)
      requires Valid()
      modifies this`nextWan, table.repr
      ensures Valid() && |wans| == |calls|
      ensures var (ops, n) := Counted(windows, old(table.entries), old(nextWan), calls);
              && table.entries == Run(windows, old(table.entries), ops) && nextWan == n
              && forall i :: 0 <= i < |calls| && calls[i].Arrives? ==>
                   OwnWan(windows, old(table.entries), ops, i, wans[i])
    {
      hide HashIps;
      hide Normal;
      hide Next;
      hide OwnWan;
      hide NextWan;
      hide Advanced;
      hide Advances;
      hide Recent;
      hide Table.Valid;
      wans := [];
      ghost var m0, c0 := table.entries, nextWan;
      ghost var ops: seq<Op> := [];
      var i := 0;
      while i < |calls|
        invariant 0 <= i <= |calls| && |wans| == i && Valid() && fresh(table.repr - old(table.repr))
        invariant (ops, nextWan) == Counted(windows, m0, c0, calls[..i])
        invariant table.entries == Run(windows, m0, ops)
        invariant forall j :: 0 <= j < i && calls[j].Arrives? ==> OwnWan(windows, m0, ops, j, wans[j])
      {
        assert calls[..i + 1][..i] == calls[..i];
        ghost var before := ops;
        match calls[i] {
          case Arrives(src, dst, len, now) =>
            ops := ops + [Packet(src, dst, len, now, NextWan(nextWan, windows.count))];
            assert ops[..i] == before && ops[..i + 1] == ops;
            var wan := GetWan(src, dst, len, now);
            ServedOne(windows, m0, ops, i);
            wans := wans + [wan];
          case Sweeps(now) =>
            ops := ops + [Op.Gc(now)];
            assert ops[..i] == before;
            Gc(now);
            wans := wans + [-1];
        }
        OwnWansStay(windows, m0, before, ops);
        i := i + 1;
      }
      assert calls[..i] == calls;
    }
  }

  /** What a packet got does not depend on later calls. */
  lemma OwnWansStay(w: Windows, m: map<Pair, Rotor>, before: seq<Op>, ops: seq<Op>)
    requires w.Valid() && before <= ops
    ensures forall i, wan :: 0 <= i < |before| && before[i].Packet? && OwnWan(w, m, before, i, wan)
                             ==> OwnWan(w, m, ops, i, wan)
  {
    hide RunOne;
    hide Normal;
    forall i | 0 <= i < |before|
      ensures ops[..i + 1] == before[..i + 1] && ops[i] == before[i]
    {
    }
  }
}
