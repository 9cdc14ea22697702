/**
 * The chained hash table of src/core/flow_table.c and of the policy pins in src/core/forwarder.c:
 * linked buckets with insertion at the head, update in place and unlinking. Its entries form a
 * finite map.
 */
module HashTable {
  // ---- lists of entries with distinct keys ----

  /** items spells out m, each key once. */
  ghost predicate Lists<K, V>(items: seq<(K, V)>, m: map<K, V>) {
    && (forall i :: 0 <= i < |items| ==> items[i].0 in m && m[items[i].0] == items[i].1)
    && (forall i, j :: 0 <= i < j < |items| ==> items[i].0 != items[j].0)
    && (forall k :: k in m ==> exists i :: 0 <= i < |items| && items[i].0 == k)
  }

  lemma ListsUpdated<K, V>(items: seq<(K, V)>, m: map<K, V>, i: nat, v: V)
    requires Lists(items, m) && i < |items|
    ensures Lists(items[i := (items[i].0, v)], m[items[i].0 := v])
  {
    var items' := items[i := (items[i].0, v)];
    forall k | k in m
      ensures exists j :: 0 <= j < |items'| && items'[j].0 == k
    {
      var j :| 0 <= j < |items| && items[j].0 == k;
      assert items'[j].0 == k;
    }
  }

  lemma ListsPushed<K, V>(items: seq<(K, V)>, m: map<K, V>, k: K, v: V)
    requires Lists(items, m) && k !in m
    ensures Lists([(k, v)] + items, m[k := v])
  {
    var items', m' := [(k, v)] + items, m[k := v];
    forall x | x in m'
      ensures exists j :: 0 <= j < |items'| && items'[j].0 == x
    {
      if x == k {
        assert items'[0].0 == x;
      } else {
        var j :| 0 <= j < |items| && items[j].0 == x;
        assert items'[j + 1].0 == x;
      }
    }
  }

  /** t is s without its i-th element. */
  predicate Without<T(==)>(t: seq<T>, s: seq<T>, i: nat) {
    i < |s| && |t| == |s| - 1 && forall j :: 0 <= j < |t| ==> t[j] == s[if j < i then j else j + 1]
  }

  lemma CutOut<T>(s: seq<T>, i: nat)
    requires i < |s|
    ensures Without(s[..i] + s[i + 1..], s, i)
  {
  }

  lemma ListsWithout<K, V>(items: seq<(K, V)>, m: map<K, V>, i: nat, rest: seq<(K, V)>)
    requires Lists(items, m) && Without(rest, items, i)
    ensures Lists(rest, m - {items[i].0})
  {
    forall k | k in m && k != items[i].0
      ensures exists j :: 0 <= j < |rest| && rest[j].0 == k
    {
      var j :| 0 <= j < |items| && items[j].0 == k;
      assert rest[if j < i then j else j - 1].0 == k;
    }
  }

  // ---- linked lists ----

  class Node<K(==), V> {
    const key: K
    var val: V
    var next: Node?<K, V>

    constructor (key: K, val: V, next: Node?<K, V>)
      ensures this.key == key && this.val == val && this.next == next
    {
      this.key, this.val, this.next := key, val, next;
    }
  }

  class Chain<K(==), V> {
    var head: Node?<K, V>
    /** The nodes from the head on, what they hold, and the map that is. */
    ghost var spine: seq<Node<K, V>>
    ghost var items: seq<(K, V)>
    ghost var entries: map<K, V>

    /** e is where a walk is after i nodes: at the i-th, or at null behind the last one. */
    ghost predicate Reached(e: Node?<K, V>, i: nat)
      reads this
    {
      if i < |spine| then e == spine[i] else i == |spine| && e == null
    }

    ghost predicate Linked()
      reads this, spine
    {
      && Reached(head, 0)
      && (forall i, j :: 0 <= i < |spine| && j == i + 1 && j < |spine| ==> spine[i].next == spine[j])
      && (spine != [] ==> spine[|spine| - 1].next == null)
    }

    ghost predicate Held()
      reads this, spine
    {
      |items| == |spine| && forall i :: 0 <= i < |spine| ==> items[i] == (spine[i].key, spine[i].val)
    }

    ghost predicate Valid()
      reads this, spine
    {
      Linked() && Held() && Lists(items, entries)
    }

    ghost predicate Empty()
      reads this
    {
      head == null && spine == [] && items == [] && entries == map[]
    }

    lemma EmptyIsValid()
      requires Empty()
      ensures Valid() && spine == [] && entries == map[]
    {
    }

    constructor ()
      ensures Empty()
    {
      head, spine, items, entries := null, [], [], map[];
    }

    method Find(key: K) returns (e: Node?<K, V>)
      requires Valid()
      ensures e == null <==> key !in entries
      ensures e != null ==> e in spine && e.key == key && e.val == entries[key]
    {
      e := head;
      ghost var i := 0;
      while e != null
        invariant 0 <= i <= |spine| && Reached(e, i)
        invariant forall j :: 0 <= j < i ==> items[j].0 != key
        decreases |spine| - i
      {
        if e.key == key {
          assert items[i] == (e.key, e.val);
          return;
        }
        e := e.next;
        i := i + 1;
      }
    }

    method Store(e: Node<K, V>, val: V)
      requires Valid() && e in spine
      modifies this`items, this`entries, e`val
      ensures Valid() && spine == old(spine) && entries == old(entries)[e.key := val]
    {
      hide Lists;
      ghost var i :| 0 <= i < |spine| && spine[i] == e;
      ListsUpdated(items, entries, i, val);
      DistinctNodes(i);
      e.val := val;
      items := items[i := (items[i].0, val)];
      entries := entries[e.key := val];
    }

    lemma DistinctNodes(i: nat)
      requires Held() && Lists(items, entries) && i < |spine|
      ensures forall j :: 0 <= j < |spine| && j != i ==> spine[j] != spine[i]
    {
    }

    method PushFront(key: K, val: V)
      requires Valid() && key !in entries
      modifies this
      ensures Valid() && entries == old(entries)[key := val]
      ensures spine != [] && spine[1..] == old(spine) && fresh(spine[0]) && spine[0].key == key
    {
      hide Lists;
      ListsPushed(items, entries, key, val);
      var n := new Node(key, val, head);
      head := n;
      spine := [n] + spine;
      items := [(key, val)] + items;
      entries := entries[key := val];
    }

    /** *pp = e->next, where e is the i-th node and prev the one before it. */
    method Unlink(prev: Node?<K, V>, e: Node<K, V>, ghost i: nat)
      requires Valid() && i < |spine| && spine[i] == e
      requires if i == 0 then prev == null else prev == spine[i - 1]
      modifies this, spine
      ensures Valid() && entries == old(entries) - {e.key}
      ensures Without(spine, old(spine), i) && Without(items, old(items), i)
    {
      hide Linked;
      hide Held;
      hide Lists;
      hide Without;
      HeldAt(i);
      CutOut(spine, i);
      CutOut(items, i);
      ListsWithout(items, entries, i, items[..i] + items[i + 1..]);
      if i > 0 {
        DistinctNodes(i - 1);
      }
      if prev == null {
        head := e.next;
      } else {
        prev.next := e.next;
      }
      spine := spine[..i] + spine[i + 1..];
      items := items[..i] + items[i + 1..];
      entries := entries - {e.key};
      Relinked(i);
      Reheld(i);
    }

    lemma HeldAt(i: nat)
      requires Held() && i < |spine|
      ensures |items| == |spine| && items[i].0 == spine[i].key
    {
    }

    /** The list is linked again after its i-th node was cut out. */
    twostate lemma Relinked(i: nat)
      requires old(Linked()) && i < |old(spine)| && Without(spine, old(spine), i)
      requires head == if i == 0 then old(spine[i].next) else old(head)
      requires i > 0 ==> old(spine)[i - 1].next == old(spine[i].next)
      requires forall j :: 0 <= j < |old(spine)| && j != i - 1 ==> old(spine)[j].next == old(spine[j].next)
      ensures Linked()
    {
      forall j, k | 0 <= j < |spine| && k == j + 1 && k < |spine|
        ensures spine[j].next == spine[k]
      {
        assert spine[k] == old(spine)[if k < i then k else k + 1];
        assert spine[j] == old(spine)[if j < i then j else j + 1];
      }
    }

    twostate lemma Reheld(i: nat)
      requires old(Held()) && i < |old(spine)| && Without(spine, old(spine), i) && Without(items, old(items), i)
      requires forall j :: 0 <= j < |old(spine)| ==> old(spine)[j].val == old(spine[j].val)
      ensures Held()
    {
    }

    method Remove(key: K)
      requires Valid()
      modifies this, spine
      ensures Valid() && entries == old(entries) - {key}
      ensures forall j :: 0 <= j < |spine| ==> spine[j] in old(spine)
    {
      var prev: Node?<K, V> := null;
      var e := head;
      ghost var i := 0;
      while e != null
        invariant 0 <= i <= |spine| && Reached(e, i)
        invariant if i == 0 then prev == null else prev == spine[i - 1]
        invariant forall j :: 0 <= j < i ==> items[j].0 != key
        invariant unchanged(this) && unchanged(spine)
        decreases |spine| - i
      {
        if e.key == key {
          Unlink(prev, e, i);
          return;
        }
        assert items[i] == (e.key, e.val);
        prev, e := e, e.next;
        i := i + 1;
      }
      assert key !in entries;
    }

    /** The pointer-to-pointer sweep: every entry to drop goes, the others stay. */
    method RemoveIf(drop: V -> bool)
      requires Valid()
      modifies this, spine
      ensures Valid() && Swept(entries, old(entries), drop)
      ensures forall j :: 0 <= j < |spine| ==> spine[j] in old(spine)
    {
      hide Lists;
      var prev: Node?<K, V> := null;
      var e := head;
      ghost var i := 0;
      while e != null
        invariant 0 <= i <= |spine| == |items| && Reached(e, i)
        invariant if i == 0 then prev == null else prev == spine[i - 1]
        invariant Valid() && forall j :: 0 <= j < |spine| ==> spine[j] in old(spine)
        invariant Sweeping(entries, old(entries), drop)
        invariant forall j :: 0 <= j < i ==> !drop(items[j].1)
        decreases |spine| - i
      {
        var after := e.next;
        if drop(e.val) {
          assert items[i] == (e.key, e.val);
          SweepStep(items, entries, old(entries), drop, i);
          Unlink(prev, e, i);
        } else {
          prev := e;
          i := i + 1;
        }
        e := after;
      }
      SweepEnd(items, entries, old(entries), drop);
    }

    /** Frees every node from the head on. */
    method Clear()
      requires Valid()
      modifies this
      ensures Valid() && entries == map[] && spine == []
    {
      ghost var i := 0;
      while head != null
        invariant 0 <= i <= |spine| && spine == old(spine) && Reached(head, i)
        decreases |spine| - i
      {
        head := head.next;
        i := i + 1;
      }
      spine, items, entries := [], [], map[];
    }
  }

  /** m is what is left of m0 when the entries to drop go. */
  ghost predicate Swept<K, V>(m: map<K, V>, m0: map<K, V>, drop: V -> bool) {
    m == map k | k in m0 && !drop(m0[k]) :: m0[k]
  }

  /** m is m0 without some entries to drop. */
  ghost predicate Sweeping<K, V>(m: map<K, V>, m0: map<K, V>, drop: V -> bool) {
    && (forall k :: k in m ==> k in m0 && m[k] == m0[k])
    && forall k :: k in m0 && k !in m ==> drop(m0[k])
  }

  lemma SweepStep<K, V>(items: seq<(K, V)>, m: map<K, V>, m0: map<K, V>, drop: V -> bool, i: nat)
    requires Lists(items, m) && Sweeping(m, m0, drop) && i < |items| && drop(items[i].1)
    ensures Sweeping(m - {items[i].0}, m0, drop)
  {
  }

  lemma SweepEnd<K, V>(items: seq<(K, V)>, m: map<K, V>, m0: map<K, V>, drop: V -> bool)
    requires Lists(items, m) && Sweeping(m, m0, drop) && forall i :: 0 <= i < |items| ==> !drop(items[i].1)
    ensures Swept(m, m0, drop)
  {
  }

  // ---- the table ----

  method NewBuckets<K(==), V>(size: nat) returns (bs: array<Chain<K, V>>)
    requires size > 0
    ensures bs.Length == size && fresh(bs)
    ensures forall i :: 0 <= i < size ==> fresh(bs[i]) && bs[i].Empty()
    ensures forall i, j :: 0 <= i < j < size ==> bs[i] != bs[j]
  {
    hide Chain.Empty;
    var first := new Chain<K, V>();
    bs := new Chain<K, V>[size](_ => first);
    var i := 1;
    while i < size
      invariant 1 <= i <= size && fresh(bs) && bs.Length == size
      invariant forall j :: 0 <= j < i ==> fresh(bs[j]) && bs[j].Empty()
      invariant forall j, k :: 0 <= j < k < i ==> bs[j] != bs[k]
      modifies bs
    {
      bs[i] := new Chain<K, V>();
      i := i + 1;
    }
  }

  class Table<K(==,!new), V> {
    const hash: K -> nat
    const buckets: array<Chain<K, V>>
    ghost var entries: map<K, V>
    ghost var repr: set<object>

    ghost function Index(k: K): (i: nat)
      requires buckets.Length > 0
      ensures i < buckets.Length
    {
      hash(k) % buckets.Length
    }

    /** Bucket i is well formed, inside repr, and holds the entries of the keys that hash to i. */
    ghost predicate BucketOk(i: nat)
      requires i < buckets.Length
      reads this, repr, buckets, buckets[i], buckets[i].spine
    {
      var b := buckets[i];
      && b in repr && b.Valid()
      && (forall n :: 0 <= n < |b.spine| ==> b.spine[n] in repr && Index(b.spine[n].key) == i)
      && (forall k :: k in b.entries ==> Index(k) == i && k in entries && entries[k] == b.entries[k])
    }

    ghost predicate Valid()
      reads this, repr
    {
      && this in repr && buckets in repr && buckets.Length > 0
      && (forall i :: 0 <= i < buckets.Length ==> buckets[i] in repr)
      && (forall i, n :: 0 <= i < buckets.Length && 0 <= n < |buckets[i].spine| ==> buckets[i].spine[n] in repr)
      && (forall i :: 0 <= i < buckets.Length ==> BucketOk(i))
      && (forall i, j :: 0 <= i < j < buckets.Length ==> buckets[i] != buckets[j])
      && (forall k :: k in entries ==> k in buckets[Index(k)].entries)
    }

    /** Entries of other buckets than b are as they were. */
    twostate predicate SameOutside(b: nat)
      requires buckets.Length > 0
      reads this
    {
      forall k :: Index(k) != b
          ==> (k in entries <==> k in old(entries)) && (k in entries ==> entries[k] == old(entries)[k])
    }

    /** For the keys of bucket b, entries is what the bucket holds. */
    ghost predicate Mirrors(b: nat)
      requires b < buckets.Length
      reads this, buckets, buckets[b]
    {
      && (forall k :: k in buckets[b].entries ==> Index(k) == b)
      && forall k :: Index(k) == b ==>
           (k in entries <==> k in buckets[b].entries) && (k in entries ==> entries[k] == buckets[b].entries[k])
    }

    /** What a method may use about bucket b before it changes it. */
    lemma Opened(b: nat)
      requires Valid() && b < buckets.Length
      ensures buckets[b].Valid() && Mirrors(b)
      ensures forall i, n :: 0 <= i < buckets.Length && i != b && 0 <= n < |buckets[i].spine| ==>
                buckets[i].spine[n] !in buckets[b].spine
    {
      hide Lists;
      hide Chain.Linked;
      hide Chain.Held;
      assert BucketOk(b);
      forall i, n | 0 <= i < buckets.Length && i != b && 0 <= n < |buckets[i].spine|
        ensures buckets[i].spine[n] !in buckets[b].spine
      {
        assert BucketOk(i);
      }
    }

    /** A change confined to bucket b leaves the others well formed. */
    twostate lemma KeptBuckets(b: nat)
      requires b < buckets.Length && unchanged(buckets) && old(repr) <= repr && SameOutside(b)
      requires forall i :: 0 <= i < buckets.Length ==> old(BucketOk(i))
      requires forall i :: 0 <= i < buckets.Length && i != b ==> unchanged(buckets[i]) && unchanged(buckets[i].spine)
      ensures forall i :: 0 <= i < buckets.Length && i != b ==> BucketOk(i)
    {
      hide Chain.Linked;
      hide Lists;
      forall i | 0 <= i < buckets.Length && i != b
        ensures BucketOk(i)
      {
        assert old(BucketOk(i));
        assert buckets[i].Linked() && buckets[i].Held();
      }
    }

    /** A change confined to bucket b, mirrored in entries, leaves the table well formed. */
    twostate lemma Closed(b: nat)
      requires b < buckets.Length && old(Valid()) && unchanged(buckets) && old(repr) <= repr && SameOutside(b)
      requires forall i :: 0 <= i < buckets.Length && i != b ==> unchanged(buckets[i]) && unchanged(buckets[i].spine)
      requires buckets[b].Valid() && Mirrors(b)
      requires forall n :: 0 <= n < |buckets[b].spine| ==>
        var x := buckets[b].spine[n];
        x in old(buckets[b].spine) || (x in repr && Index(x.key) == b)
      ensures Valid()
    {
      hide Chain.Valid;
      hide BucketOk;
      KeptBuckets(b);
      ChangedBucket(b);
      NodesInside();
    }

    twostate lemma ChangedBucket(b: nat)
      requires b < buckets.Length && unchanged(buckets) && old(repr) <= repr && old(BucketOk(b))
      requires buckets[b].Valid() && Mirrors(b)
      requires forall n :: 0 <= n < |buckets[b].spine| ==>
        var x := buckets[b].spine[n];
        x in old(buckets[b].spine) || (x in repr && Index(x.key) == b)
      ensures BucketOk(b)
    {
      hide Chain.Valid;
    }

    lemma NodesInside()
      requires forall i :: 0 <= i < buckets.Length ==> BucketOk(i)
      ensures forall i, n :: 0 <= i < buckets.Length && 0 <= n < |buckets[i].spine| ==> buckets[i].spine[n] in repr
    {
      hide Chain.Valid;
      forall i, n | 0 <= i < buckets.Length && 0 <= n < |buckets[i].spine|
        ensures buckets[i].spine[n] in repr
      {
        assert BucketOk(i);
      }
    }

    constructor (size: nat, hash: K -> nat)
      requires size > 0
      ensures Valid() && fresh(repr) && entries == map[] && this.hash == hash && buckets.Length == size
    {
      hide Chain.Empty;
      var bs := NewBuckets<K, V>(size);
      this.hash := hash;
      buckets := bs;
      entries := map[];
      repr := {this, bs} + set i | 0 <= i < bs.Length :: bs[i];
      new;
      forall i | 0 <= i < bs.Length
        ensures bs[i].Valid() && bs[i].spine == [] && bs[i].entries == map[]
      {
        bs[i].EmptyIsValid();
      }
      hide Chain.Valid;
    }

    method Find(key: K) returns (e: Node?<K, V>)
      requires Valid()
      ensures e == null <==> key !in entries
      ensures e != null ==> e in buckets[Index(key)].spine && e.key == key && e.val == entries[key]
    {
      var b := hash(key) % buckets.Length;
      Opened(b);
      e := buckets[b].Find(key);
    }

    method Store(e: Node<K, V>, val: V)
      requires Valid() && e in buckets[Index(e.key)].spine
      modifies repr
      ensures Valid() && repr == old(repr) && entries == old(entries)[e.key := val]
    {
      hide Chain.Valid;
      hide BucketOk;
      var b := hash(e.key) % buckets.Length;
      Opened(b);
      buckets[b].Store(e, val);
      entries := entries[e.key := val];
      Closed(b);
    }

    /** A new entry at the head of its bucket. */
    method Insert(key: K, val: V)
      requires Valid() && key !in entries
      modifies repr
      ensures Valid() && fresh(repr - old(repr)) && entries == old(entries)[key := val]
    {
      hide Chain.Valid;
      hide BucketOk;
      var b := hash(key) % buckets.Length;
      Opened(b);
      buckets[b].PushFront(key, val);
      repr := repr + {buckets[b].spine[0]};
      entries := entries[key := val];
      assert forall n :: 1 <= n < |buckets[b].spine| ==> buckets[b].spine[n] == buckets[b].spine[1..][n - 1];
      Closed(b);
    }

    method Remove(key: K)
      requires Valid()
      modifies repr
      ensures Valid() && repr == old(repr) && entries == old(entries) - {key}
    {
      hide Chain.Valid;
      hide BucketOk;
      var b := hash(key) % buckets.Length;
      Opened(b);
      buckets[b].Remove(key);
      entries := entries - {key};
      Closed(b);
    }

    /** m without the entries of bucket b to drop. */
    ghost function SweptIn(m: map<K, V>, b: nat, drop: V -> bool): map<K, V>
      requires buckets.Length > 0
    {
      map k | k in m && (Index(k) != b || !drop(m[k])) :: m[k]
    }

    method RemoveIfIn(b: nat, drop: V -> bool)
      requires Valid() && b < buckets.Length
      modifies repr
      ensures Valid() && repr == old(repr) && entries == SweptIn(old(entries), b, drop)
    {
      hide Chain.Valid;
      hide BucketOk;
      hide SweptIn;
      hide Swept;
      Opened(b);
      ghost var before := buckets[b].entries;
      buckets[b].RemoveIf(drop);
      SweptInParts(entries, b, drop, before, buckets[b].entries);
      entries := SweptIn(entries, b, drop);
      Closed(b);
    }

    /** Sweeping bucket b of m leaves the other keys, and for its own keys what the bucket is left with. */
    lemma SweptInParts(m: map<K, V>, b: nat, drop: V -> bool, held: map<K, V>, left: map<K, V>)
      requires buckets.Length > 0 && Swept(left, held, drop)
      requires forall k :: k in held ==> Index(k) == b
      requires forall k :: Index(k) == b ==> (k in m <==> k in held) && (k in m ==> m[k] == held[k])
      ensures var m' := SweptIn(m, b, drop);
              && (forall k :: k in left ==> Index(k) == b)
              && (forall k :: Index(k) != b ==> (k in m' <==> k in m) && (k in m' ==> m'[k] == m[k]))
              && forall k :: Index(k) == b ==> (k in m' <==> k in left) && (k in m' ==> m'[k] == left[k])
    {
    }

    /** m after the first n buckets were swept. */
    ghost function SweptBelow(m: map<K, V>, n: nat, drop: V -> bool): map<K, V>
      requires buckets.Length > 0
    {
      map k | k in m && (Index(k) >= n || !drop(m[k])) :: m[k]
    }

    lemma SweptNext(m: map<K, V>, n: nat, drop: V -> bool)
      requires buckets.Length > 0
      ensures SweptBelow(m, 0, drop) == m
      ensures SweptIn(SweptBelow(m, n, drop), n, drop) == SweptBelow(m, n + 1, drop)
      ensures Swept(SweptBelow(m, buckets.Length, drop), m, drop)
    {
    }

    /** The sweep over all buckets: exactly the entries to drop go. */
    method RemoveIf(drop: V -> bool)
      requires Valid()
      modifies repr
      ensures Valid() && repr == old(repr) && Swept(entries, old(entries), drop)
    {
      hide BucketOk;
      hide Chain.Valid;
      hide SweptBelow;
      hide SweptIn;
      hide Swept;
      SweptNext(entries, 0, drop);
      var i := 0;
      while i < buckets.Length
        invariant 0 <= i <= buckets.Length && Valid() && repr == old(repr)
        invariant entries == SweptBelow(old(entries), i, drop)
      {
        SweptNext(old(entries), i, drop);
        RemoveIfIn(i, drop);
        i := i + 1;
      }
    }

    method ClearIn(b: nat)
      requires Valid() && b < buckets.Length
      modifies repr
      ensures Valid() && repr == old(repr)
      ensures entries == map k | k in old(entries) && Index(k) != b :: old(entries)[k]
    {
      hide Chain.Valid;
      hide BucketOk;
      Opened(b);
      buckets[b].Clear();
      entries := map k | k in entries && Index(k) != b :: entries[k];
      Closed(b);
    }

    method Clear()
      requires Valid()
      modifies repr
      ensures Valid() && repr == old(repr) && entries == map[]
    {
      hide BucketOk;
      var i := 0;
      while i < buckets.Length
        invariant 0 <= i <= buckets.Length && Valid() && repr == old(repr)
        invariant entries == map k | k in old(entries) && Index(k) >= i :: old(entries)[k]
      {
        ClearIn(i);
        i := i + 1;
      }
    }
  }
}
