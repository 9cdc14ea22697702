/** The open-addressing neighbour cache and its file (src/core/wan_arp.c). */
module ArpCache {
  import opened Bytes

  const Size := 2048

  type Mac = m: seq<byte> | |m| == 6 witness [0, 0, 0, 0, 0, 0]

  /** struct arp_entry; address 0 marks an empty one. */
  datatype Entry = Entry(ip: u32, mac: Mac, lastSeen: u32)

  /** arp_hash. */
  function Hash(ip: u32): u32 {
    var x0 := ip as bv32;
    var x1 := (x0 ^ (x0 >> 16)) * 0x7feb352d;
    var x2 := (x1 ^ (x1 >> 15)) * 0x846ca68b;
    (x2 ^ (x2 >> 16)) as u32
  }

  // ---- probing ----

  /** The i-th place to look for an address; the 32-bit sum wraps before it is masked. */
  function Slot(ip: u32, i: nat): (k: nat)
    ensures k < Size
  {
    (Hash(ip) + i) % 0x1_0000_0000 % Size
  }

  /** How many places before k an address is looked for. */
  function Dist(ip: u32, k: nat): (d: nat)
    ensures d < Size
  {
    (k + Size - Hash(ip) % Size) % Size
  }

  lemma SlotAtDist(ip: u32, k: nat)
    requires k < Size
    ensures Slot(ip, Dist(ip, k)) == k
  {
    hide Hash;
  }

  lemma DistOfSlot(ip: u32, i: nat)
    requires i < Size
    ensures Dist(ip, Slot(ip, i)) == i
  {
    hide Hash;
  }

  // ---- the entries as a map ----

  /** The entries are m: what they hold, no address twice, no empty place on the way to one. */
  ghost predicate Stores(cells: seq<Entry>, m: map<u32, Mac>) {
    && |cells| == Size && 0 !in m
    && (forall k :: 0 <= k < Size && cells[k].ip != 0 ==> cells[k].ip in m && m[cells[k].ip] == cells[k].mac)
    && (forall ip :: ip in m ==> exists k :: 0 <= k < Size && cells[k].ip == ip)
    && NoTwice(cells) && NoGap(cells)
  }

  ghost predicate NoTwice(cells: seq<Entry>) {
    forall j, k :: 0 <= j < k < |cells| && cells[j].ip != 0 ==> cells[j].ip != cells[k].ip
  }

  ghost predicate NoGap(cells: seq<Entry>)
    requires |cells| == Size
  {
    forall k, i :: 0 <= k < Size && cells[k].ip != 0 && 0 <= i < Dist(cells[k].ip, k)
        ==> cells[Slot(cells[k].ip, i)].ip != 0
  }

  /** A probe that has seen neither ip nor an empty place so far. */
  ghost predicate Missed(cells: seq<Entry>, ip: u32, i: nat)
    requires |cells| == Size
  {
    forall j :: 0 <= j < i ==> cells[Slot(ip, j)].ip != 0 && cells[Slot(ip, j)].ip != ip
  }

  /** Stopping a probe at an empty place, or after all of them, means that ip is not stored. */
  lemma ProbeIsComplete(cells: seq<Entry>, m: map<u32, Mac>, ip: u32, i: nat)
    requires Stores(cells, m) && i <= Size && Missed(cells, ip, i)
    requires i < Size ==> cells[Slot(ip, i)].ip == 0
    ensures ip !in m
  {
    hide Slot;
    hide Dist;
    if ip in m {
      var k :| 0 <= k < Size && cells[k].ip == ip;
      SlotAtDist(ip, k);
    }
  }

  /** What an insert does to the map; a full cache drops new addresses. */
  function Inserted(m: map<u32, Mac>, ip: u32, mac: Mac): map<u32, Mac> {
    if ip == 0 || (ip !in m && |m| >= Size) then m else m[ip := mac]
  }

  lemma StoresAfter(cells: seq<Entry>, m: map<u32, Mac>, ip: u32, i: nat, e: Entry)
    requires Stores(cells, m) && i < Size && Missed(cells, ip, i) && e.ip == ip
    requires cells[Slot(ip, i)].ip == 0 || cells[Slot(ip, i)].ip == ip
    ensures Stores(cells[Slot(ip, i) := e], if ip == 0 then m else m[ip := e.mac])
  {
    hide Slot;
    hide Dist;
    var at := Slot(ip, i);
    var cells' := cells[at := e];
    var m' := if ip == 0 then m else m[ip := e.mac];
    if cells[at].ip == 0 {
      ProbeIsComplete(cells, m, ip, i);
    }
    DistOfSlot(ip, i);
    forall x | x in m'
      ensures exists k :: 0 <= k < Size && cells'[k].ip == x
    {
      if x == ip {
        assert cells'[at].ip == x;
      } else {
        var k :| 0 <= k < Size && cells[k].ip == x;
        assert cells'[k].ip == x;
      }
    }
  }

  // ---- a full cache ----

  ghost function Addresses(cells: seq<Entry>, n: nat): set<u32>
    requires n <= |cells|
  {
    if n == 0 then {}
    else Addresses(cells, n - 1) + if cells[n - 1].ip != 0 then {cells[n - 1].ip} else {}
  }

  lemma {:induction false} AddressFound(cells: seq<Entry>, n: nat, k: nat)
    requires k < n <= |cells| && cells[k].ip != 0
    ensures cells[k].ip in Addresses(cells, n)
  {
    if k < n - 1 {
      AddressFound(cells, n - 1, k);
    }
  }

  lemma {:induction false} AddressPlace(cells: seq<Entry>, n: nat, ip: u32) returns (k: nat)
    requires n <= |cells| && ip in Addresses(cells, n)
    ensures k < n && cells[k].ip == ip != 0
  {
    if cells[n - 1].ip == ip != 0 {
      k := n - 1;
    } else {
      k := AddressPlace(cells, n - 1, ip);
    }
  }

  lemma {:induction false} AddressesCount(cells: seq<Entry>, n: nat)
    requires n <= |cells| && NoTwice(cells)
    ensures |Addresses(cells, n)| <= n
    ensures |Addresses(cells, n)| == n <==> forall k :: 0 <= k < n ==> cells[k].ip != 0
  {
    if n > 0 {
      AddressesCount(cells, n - 1);
      var ip := cells[n - 1].ip;
      if ip in Addresses(cells, n - 1) {
        var k := AddressPlace(cells, n - 1, ip);
        assert false;
      }
    }
  }

  lemma AddressesAreKeys(cells: seq<Entry>, m: map<u32, Mac>)
    requires Stores(cells, m)
    ensures m.Keys == Addresses(cells, Size)
  {
    hide NoGap;
    forall ip | ip in Addresses(cells, Size)
      ensures ip in m
    {
      var k := AddressPlace(cells, Size, ip);
    }
    forall ip | ip in m
      ensures ip in Addresses(cells, Size)
    {
      var k :| 0 <= k < Size && cells[k].ip == ip;
      AddressFound(cells, Size, k);
    }
  }

  /** Nothing can be added exactly when no place is empty. */
  lemma FullMeansNoEmpty(cells: seq<Entry>, m: map<u32, Mac>)
    requires Stores(cells, m)
    ensures |m| <= Size && (|m| == Size <==> forall k :: 0 <= k < Size ==> cells[k].ip != 0)
  {
    hide NoGap;
    hide Addresses;
    AddressesCount(cells, Size);
    AddressesAreKeys(cells, m);
    assert |m| == |m.Keys|;
  }

  // ---- the file ----

  /** A line of the cache file: the address in host order, and the hardware address. */
  type Line = (u32, Mac)

  /** Reading lines into m, in order. */
  function Loaded(m: map<u32, Mac>, lines: seq<Line>): map<u32, Mac> {
    if lines == [] then m
    else
      var last := lines[|lines| - 1];
      Inserted(Loaded(m, lines[..|lines| - 1]), Ntohl(last.0), last.1)
  }

  predicate NotAfter(lines: seq<Line>, i: nat, ip: u32) {
    forall j :: i < j < |lines| ==> Ntohl(lines[j].0) != ip
  }

  /** Of up to 2048 lines the last one for an address counts. */
  lemma {:induction false} LastLineCounts(lines: seq<Line>, ip: u32)
    requires |lines| <= 2048 && ip != 0
    ensures var m := Loaded(map[], lines);
            && |m| <= |lines|
            && (ip in m <==> exists i :: 0 <= i < |lines| && Ntohl(lines[i].0) == ip)
            && forall i :: 0 <= i < |lines| && Ntohl(lines[i].0) == ip && NotAfter(lines, i, ip) ==> m[ip] == lines[i].1
  {
    hide Ntohl;
    if lines != [] {
      var n := |lines| - 1;
      var rest := lines[..n];
      LastLineCounts(rest, ip);
      assert forall i :: 0 <= i < n ==> rest[i] == lines[i];
    }
  }

  /** What a new cache would hold after loading the file. */
  function FileMap(file: Option<seq<Line>>): map<u32, Mac> {
    if file.None? then map[] else Loaded(map[], file.value)
  }

  /** The lines written for the first n entries. */
  function Saved(cells: seq<Entry>, n: nat): seq<Line>
    requires n <= |cells|
  {
    if n == 0 then []
    else if cells[n - 1].ip == 0 then Saved(cells, n - 1)
    else Saved(cells, n - 1) + [(Ntohl(cells[n - 1].ip), cells[n - 1].mac)]
  }

  /** l is the part of m that the first n entries hold. */
  ghost predicate PartOf(l: map<u32, Mac>, cells: seq<Entry>, n: nat, m: map<u32, Mac>)
    requires n <= |cells|
  {
    l.Keys == Addresses(cells, n) && forall ip :: ip in l ==> ip in m && l[ip] == m[ip]
  }

  lemma PartOfNothing(cells: seq<Entry>, m: map<u32, Mac>)
    ensures PartOf(Loaded(map[], []), cells, 0, m)
  {
  }

  lemma PartOfSkip(l: map<u32, Mac>, cells: seq<Entry>, n: nat, m: map<u32, Mac>)
    requires 0 < n <= |cells| && cells[n - 1].ip == 0 && PartOf(l, cells, n - 1, m)
    ensures PartOf(l, cells, n, m)
  {
  }

  /** Loading the lines of n entries stores just those. */
  lemma {:induction false} SavedLoads(cells: seq<Entry>, m: map<u32, Mac>, n: nat)
    requires Stores(cells, m) && n <= Size
    ensures PartOf(Loaded(map[], Saved(cells, n)), cells, n, m)
  {
    hide NoGap;
    hide NoTwice;
    hide Ntohl;
    hide Loaded;
    hide Inserted;
    hide PartOf;
    if n == 0 {
      PartOfNothing(cells, m);
    } else {
      SavedLoads(cells, m, n - 1);
      var e := cells[n - 1];
      if e.ip == 0 {
        PartOfSkip(Loaded(map[], Saved(cells, n - 1)), cells, n, m);
      } else {
        NtohlTwice(e.ip);
        LoadedOne(Saved(cells, n - 1), (Ntohl(e.ip), e.mac));
        SavedStep(cells, m, n - 1, Loaded(map[], Saved(cells, n - 1)));
      }
    }
  }

  lemma PartIsSmall(l: map<u32, Mac>, cells: seq<Entry>, k: nat, m: map<u32, Mac>)
    requires k <= |cells| && NoTwice(cells) && PartOf(l, cells, k, m)
    ensures |l| <= k
  {
    hide NoTwice;
    hide Addresses;
    AddressesCount(cells, k);
    assert |l| == |l.Keys|;
  }

  lemma PartGrows(l: map<u32, Mac>, cells: seq<Entry>, k: nat, m: map<u32, Mac>)
    requires k < |cells| && PartOf(l, cells, k, m) && cells[k].ip != 0
    requires cells[k].ip in m && m[cells[k].ip] == cells[k].mac
    ensures PartOf(l[cells[k].ip := cells[k].mac], cells, k + 1, m)
  {
  }

  lemma SavedStep(cells: seq<Entry>, m: map<u32, Mac>, k: nat, l: map<u32, Mac>)
    requires Stores(cells, m) && k < Size && cells[k].ip != 0
    requires PartOf(l, cells, k, m)
    ensures PartOf(Inserted(l, cells[k].ip, cells[k].mac), cells, k + 1, m)
  {
    hide NoGap;
    hide NoTwice;
    hide PartOf;
    PartIsSmall(l, cells, k, m);
    PartGrows(l, cells, k, m);
  }

  lemma LoadedOne(lines: seq<Line>, line: Line)
    ensures Loaded(map[], lines + [line]) == Inserted(Loaded(map[], lines), Ntohl(line.0), line.1)
  {
    hide Ntohl;
    hide Inserted;
    assert (lines + [line])[..|lines|] == lines;
  }

  /** Saving and loading into a new cache gives the same map. */
  lemma SaveThenLoad(cells: seq<Entry>, m: map<u32, Mac>)
    requires Stores(cells, m)
    ensures Loaded(map[], Saved(cells, Size)) == m
  {
    hide Loaded;
    hide Saved;
    hide NoGap;
    hide NoTwice;
    SavedLoads(cells, m, Size);
    AddressesAreKeys(cells, m);
  }

  // ---- the cache ----

  class Cache {
    const entries: array<Entry>
    var dirty: bool
    var file: Option<seq<Line>>
    ghost var contents: map<u32, Mac>

    ghost predicate Valid()
      reads this, entries
    {
      entries.Length == Size && Stores(entries[..], contents)
    }

    /** A cache that is not dirty is what its file would load as. */
    ghost predicate InStep()
      reads this
    {
      dirty || FileMap(file) == contents
    }

    constructor (file: Option<seq<Line>>)
      ensures Valid() && fresh(entries) && contents == map[] && !dirty && this.file == file
    {
      hide Slot;
      hide Dist;
      entries := new Entry[Size](_ => Entry(0, [0, 0, 0, 0, 0, 0], 0));
      dirty, this.file, contents := false, file, map[];
    }

    /** arp_cache_lookup. */
    method Lookup(ip: u32) returns (mac: Option<Mac>)
      requires Valid()
      ensures mac == if ip in contents then Some(contents[ip]) else None
    {
      hide Slot;
      hide Dist;
      hide NoGap;
      hide NoTwice;
      var i := 0;
      while i < Size
        invariant 0 <= i <= Size && Missed(entries[..], ip, i)
      {
        var k := Slot(ip, i);
        if entries[k].ip == 0 {
          ProbeIsComplete(entries[..], contents, ip, i);
          return None;
        }
        if entries[k].ip == ip {
          return Some(entries[k].mac);
        }
        i := i + 1;
      }
      ProbeIsComplete(entries[..], contents, ip, i);
      mac := None;
    }

    /** arp_cache_insert. */
    method Insert(ip: u32, mac: Mac, now: u32)
      requires Valid()
      modifies this`dirty, this`contents, entries
      ensures Valid() && contents == Inserted(old(contents), ip, mac)
      ensures contents == if ip != 0 && (ip in old(contents) || |old(contents)| < 2048)
                          then old(contents)[ip := mac] else old(contents)
      ensures old(InStep()) ==> InStep()
    {
      hide Slot;
      hide Dist;
      hide Stores;
      hide FileMap;
      FullMeansNoEmpty(entries[..], contents);
      var i := 0;
      while i < Size
        invariant 0 <= i <= Size && Missed(entries[..], ip, i)
        invariant unchanged(this) && unchanged(entries)
      {
        var k := Slot(ip, i);
        if entries[k].ip == 0 || entries[k].ip == ip {
          StoresAfter(entries[..], contents, ip, i, Entry(ip, mac, now));
          StoredOrRoom(entries[..], contents, ip, k);
          entries[k] := Entry(ip, mac, now);
          assert entries[..] == old(entries[..])[k := Entry(ip, mac, now)];
          contents := Inserted(contents, ip, mac);
          dirty := true;
          return;
        }
        i := i + 1;
      }
      NoRoom(entries[..], contents, ip);
    }

    /** arp_cache_load. */
    method Load(now: u32)
      requires Valid()
      modifies this`dirty, this`contents, entries
      ensures Valid()
      ensures contents == if file.None? then old(contents) else Loaded(old(contents), file.value)
      ensures old(contents) == map[] && !old(dirty) ==> contents == FileMap(file) && !dirty
    {
      hide Stores;
      hide Inserted;
      if file.None? {
        return;
      }
      var i := 0;
      while i < |file.value|
        invariant 0 <= i <= |file.value| && Valid()
        invariant contents == Loaded(old(contents), file.value[..i])
      {
        assert file.value[..i + 1][..i] == file.value[..i];
        Insert(Ntohl(file.value[i].0), file.value[i].1, now);
        i := i + 1;
      }
      assert file.value[..i] == file.value;
      dirty := false;
    }

    /** arp_cache_save; canOpen says whether the file could be opened for writing. */
    method Save(canOpen: bool)
      requires Valid()
      modifies this`dirty, this`file
      ensures Valid()
      ensures old(InStep()) ==> InStep()
      ensures canOpen && old(InStep()) ==> !dirty && FileMap(file) == contents
    {
      hide Stores;
      if !dirty || !canOpen {
        return;
      }
      var lines := [];
      var i := 0;
      while i < Size
        invariant 0 <= i <= Size && lines == Saved(entries[..], i)
      {
        if entries[i].ip != 0 {
          lines := lines + [(Ntohl(entries[i].ip), entries[i].mac)];
        }
        i := i + 1;
      }
      SaveThenLoad(entries[..], contents);
      file := Some(lines);
      dirty := false;
    }
  }

  /** A probe that ends at a place for ip finds it stored already or room for it. */
  lemma StoredOrRoom(cells: seq<Entry>, m: map<u32, Mac>, ip: u32, k: nat)
    requires Stores(cells, m) && k < Size && (cells[k].ip == 0 || cells[k].ip == ip)
    ensures ip == 0 || ip in m || |m| < Size
  {
    FullMeansNoEmpty(cells, m);
  }

  /** A probe that ends nowhere means that ip is new and the cache full. */
  lemma NoRoom(cells: seq<Entry>, m: map<u32, Mac>, ip: u32)
    requires Stores(cells, m) && Missed(cells, ip, Size)
    ensures ip !in m && |m| == Size
  {
    hide Slot;
    hide Dist;
    ProbeIsComplete(cells, m, ip, Size);
    FullMeansNoEmpty(cells, m);
    forall k | 0 <= k < Size
      ensures cells[k].ip != 0
    {
      SlotAtDist(ip, k);
    }
  }
}
