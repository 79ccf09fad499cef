/**
  The ordered dictionary the multi-map and the algorithms are built on
  (`std::map<int, V>`): a sequence of entries whose keys strictly increase,
  so that iterating the sequence is iterating the map in key order.
 */
module OrderedDict {
  import opened Wrappers
  import opened SeqFacts

  /** One key/value node of the dictionary. */
  datatype Entry<V> = Entry(key: int, value: V)

  /** The map's ordering invariant: keys strictly increase, hence are unique. */
  ghost predicate Ordered<V>(d: seq<Entry<V>>) {
    forall i, j | 0 <= i < j < |d| :: d[i].key < d[j].key
  }

  /** The key set of the dictionary. */
  function Keys<V>(d: seq<Entry<V>>): set<int> {
    set i | 0 <= i < |d| :: d[i].key
  }

  /** The position of the first entry whose key is not below `k` (`lower_bound`). */
  function LowerBound<V>(d: seq<Entry<V>>, k: int): (i: nat)
    requires Ordered(d)
    ensures i <= |d|
    ensures forall j | 0 <= j < i :: d[j].key < k
    ensures forall j | i <= j < |d| :: k <= d[j].key
  {
    if d == [] || k <= d[0].key then 0 else 1 + LowerBound(d[1..], k)
  }

  /** In an ordered dictionary, an index is determined by its key. */
  lemma IndexOfKey<V>(d: seq<Entry<V>>, i: int, j: int)
    requires Ordered(d)
    requires 0 <= i < |d| && 0 <= j < |d| && d[i].key == d[j].key
    ensures i == j
  {
  }

  /** `find`: the index of the entry holding `k`, or `|d|` (the end) when there is none. */
  function Find<V>(d: seq<Entry<V>>, k: int): (i: nat)
    requires Ordered(d)
    ensures i <= |d|
    ensures i < |d| <==> k in Keys(d)
    ensures i < |d| ==> d[i].key == k
  {
    var j := LowerBound(d, k);
    if j < |d| && d[j].key == k then j else |d|
  }

  /** The value stored under `k`, if any. */
  function Lookup<V>(d: seq<Entry<V>>, k: int): (r: Option<V>)
    requires Ordered(d)
    ensures r.Some? <==> k in Keys(d)
    ensures forall i | 0 <= i < |d| && d[i].key == k :: r == Some(d[i].value)
  {
    var i := Find(d, k);
    if i < |d| then Some(d[i].value) else None
  }

  /** `d[k] = v`: overwrite the value of a present key, or insert the key at its ordered place. */
  function Assign<V>(d: seq<Entry<V>>, k: int, v: V): (r: seq<Entry<V>>)
    requires Ordered(d)
    ensures Ordered(r)
    ensures Keys(r) == Keys(d) + {k}
    ensures |r| == if k in Keys(d) then |d| else |d| + 1
    ensures Lookup(r, k) == Some(v)
    ensures forall k' | k' != k :: Lookup(r, k') == Lookup(d, k')
  {
    var i := LowerBound(d, k);
    if i < |d| && d[i].key == k then
      ReplaceAt(d, i, v);
      d[i := Entry(k, v)]
    else
      InsertAt(d, i, k, v);
      d[..i] + [Entry(k, v)] + d[i..]
  }

  /** Assigning to the key of entry `i` rewrites that entry in place. */
  lemma AssignAt<V>(d: seq<Entry<V>>, i: nat, v: V)
    requires Ordered(d) && i < |d|
    ensures Assign(d, d[i].key, v) == d[i := Entry(d[i].key, v)]
  {
    var k := d[i].key;
    var j := LowerBound(d, k);
    assert !(d[i].key < k);
    assert j <= i;
    assert k <= d[j].key;
    assert j == i;
  }

  lemma ReplaceAt<V>(d: seq<Entry<V>>, i: nat, v: V)
    requires Ordered(d) && i < |d|
    ensures var r := d[i := Entry(d[i].key, v)];
      && Ordered(r)
      && Keys(r) == Keys(d)
      && Lookup(r, d[i].key) == Some(v)
      && forall k' | k' != d[i].key :: Lookup(r, k') == Lookup(d, k')
  {
    var r := d[i := Entry(d[i].key, v)];
    assert forall j | 0 <= j < |d| :: r[j].key == d[j].key;
    assert Keys(r) == Keys(d);
  }

  lemma InsertAt<V>(d: seq<Entry<V>>, i: nat, k: int, v: V)
    requires Ordered(d) && i <= |d|
    requires forall j | 0 <= j < i :: d[j].key < k
    requires forall j | i <= j < |d| :: k < d[j].key
    ensures var r := d[..i] + [Entry(k, v)] + d[i..];
      && Ordered(r)
      && Keys(r) == Keys(d) + {k}
      && Lookup(r, k) == Some(v)
      && forall k' | k' != k :: Lookup(r, k') == Lookup(d, k')
  {
    InsertIndices(d, i, Entry(k, v));
    InsertAtKeys(d, i, Entry(k, v));
    InsertAtLookup(d, i, k, v);
  }

  lemma InsertAtKeys<V>(d: seq<Entry<V>>, i: nat, e: Entry<V>)
    requires i <= |d|
    ensures Keys(d[..i] + [e] + d[i..]) == Keys(d) + {e.key}
  {
    var r := d[..i] + [e] + d[i..];
    InsertIndices(d, i, e);
    forall x | x in Keys(r) ensures x in Keys(d) + {e.key} {
      var j :| 0 <= j < |r| && r[j].key == x;
      if j < i { assert d[j].key == x; } else if j > i { assert d[j - 1].key == x; }
    }
    forall x | x in Keys(d) ensures x in Keys(r) {
      var j :| 0 <= j < |d| && d[j].key == x;
      if j < i { assert r[j].key == x; } else { assert r[j + 1].key == x; }
    }
  }

  lemma InsertAtLookup<V>(d: seq<Entry<V>>, i: nat, k: int, v: V)
    requires Ordered(d) && i <= |d|
    requires forall j | 0 <= j < i :: d[j].key < k
    requires forall j | i <= j < |d| :: k < d[j].key
    ensures var r := d[..i] + [Entry(k, v)] + d[i..];
      && Ordered(r)
      && Lookup(r, k) == Some(v)
      && forall k' | k' != k :: Lookup(r, k') == Lookup(d, k')
  {
    var r := d[..i] + [Entry(k, v)] + d[i..];
    InsertIndices(d, i, Entry(k, v));
    InsertAtKeys(d, i, Entry(k, v));
    assert Ordered(r);
    forall k' | k' != k
      ensures Lookup(r, k') == Lookup(d, k')
    {
      if k' in Keys(d) {
        var j :| 0 <= j < |d| && d[j].key == k';
        if j < i { assert r[j] == d[j]; } else { assert r[j + 1] == d[j]; }
      }
    }
  }

  /** `emplace` on a map: insert `(k, v)` unless `k` is already present, which keeps the old value. */
  function Insert<V>(d: seq<Entry<V>>, k: int, v: V): (r: seq<Entry<V>>)
    requires Ordered(d)
    ensures Ordered(r)
    ensures Keys(r) == Keys(d) + {k}
    ensures |r| == if k in Keys(d) then |d| else |d| + 1
    ensures Lookup(r, k) == if k in Keys(d) then Lookup(d, k) else Some(v)
    ensures forall k' | k' != k :: Lookup(r, k') == Lookup(d, k')
  {
    if Find(d, k) < |d| then d else Assign(d, k, v)
  }

  /** Inserting a key larger than every present key appends it. */
  lemma InsertGreatest<V>(d: seq<Entry<V>>, k: int, v: V)
    requires Ordered(d)
    requires forall j | 0 <= j < |d| :: d[j].key < k
    ensures Insert(d, k, v) == d + [Entry(k, v)]
  {
    LowerBoundPastEnd(d, k);
    assert d[..|d|] == d;
  }

  lemma {:induction false} LowerBoundPastEnd<V>(d: seq<Entry<V>>, k: int)
    requires Ordered(d)
    requires forall j | 0 <= j < |d| :: d[j].key < k
    ensures LowerBound(d, k) == |d|
  {
    if d != [] {
      assert d[0].key < k;
      LowerBoundPastEnd(d[1..], k);
    }
  }

  /** `erase(k)`: drop the entry holding `k`, if there is one. */
  function Remove<V>(d: seq<Entry<V>>, k: int): (r: seq<Entry<V>>)
    requires Ordered(d)
    ensures Ordered(r)
    ensures Keys(r) == Keys(d) - {k}
    ensures |r| == if k in Keys(d) then |d| - 1 else |d|
    ensures Lookup(r, k) == None
    ensures forall k' | k' != k :: Lookup(r, k') == Lookup(d, k')
  {
    var i := Find(d, k);
    if i < |d| then
      RemoveAt(d, i);
      d[..i] + d[i + 1..]
    else
      d
  }

  lemma RemoveAt<V>(d: seq<Entry<V>>, i: nat)
    requires Ordered(d) && i < |d|
    ensures var r := d[..i] + d[i + 1..];
      && Ordered(r)
      && Keys(r) == Keys(d) - {d[i].key}
      && Lookup(r, d[i].key) == None
      && forall k' | k' != d[i].key :: Lookup(r, k') == Lookup(d, k')
  {
    RemoveIndices(d, i);
    RemoveAtKeys(d, i);
    RemoveAtLookup(d, i);
  }

  lemma RemoveAtKeys<V>(d: seq<Entry<V>>, i: nat)
    requires Ordered(d) && i < |d|
    ensures Keys(d[..i] + d[i + 1..]) == Keys(d) - {d[i].key}
  {
    var r := d[..i] + d[i + 1..];
    var k := d[i].key;
    RemoveIndices(d, i);
    forall x | x in Keys(r) ensures x in Keys(d) - {k} {
      var j :| 0 <= j < |r| && r[j].key == x;
      if j < i { assert d[j].key == x; } else { assert d[j + 1].key == x; }
    }
    forall x | x in Keys(d) - {k} ensures x in Keys(r) {
      var j :| 0 <= j < |d| && d[j].key == x;
      if j < i { assert r[j].key == x; } else { assert j != i; assert r[j - 1].key == x; }
    }
  }

  lemma RemoveAtLookup<V>(d: seq<Entry<V>>, i: nat)
    requires Ordered(d) && i < |d|
    ensures var r := d[..i] + d[i + 1..];
      && Ordered(r)
      && Lookup(r, d[i].key) == None
      && forall k' | k' != d[i].key :: Lookup(r, k') == Lookup(d, k')
  {
    var r := d[..i] + d[i + 1..];
    var k := d[i].key;
    RemoveIndices(d, i);
    RemoveAtKeys(d, i);
    assert Ordered(r);
    forall k' | k' != k
      ensures Lookup(r, k') == Lookup(d, k')
    {
      if k' in Keys(d) {
        var j :| 0 <= j < |d| && d[j].key == k';
        if j < i { assert r[j] == d[j]; } else { assert r[j - 1] == d[j]; }
      }
    }
  }

  /** The number of entries is the number of distinct keys. */
  lemma {:induction false} KeysCardinality<V>(d: seq<Entry<V>>)
    requires Ordered(d)
    ensures |Keys(d)| == |d|
  {
    if d != [] {
      var p, last := d[..|d| - 1], d[|d| - 1];
      SplitLast([], d);
      KeysCardinality(p);
      KeysSnoc(p, last);
      assert last.key !in Keys(p);
    }
  }

  lemma KeysSnoc<V>(p: seq<Entry<V>>, e: Entry<V>)
    ensures Keys(p + [e]) == Keys(p) + {e.key}
  {
    var other := p + [e];
    forall x | x in Keys(other) ensures x in Keys(p) + {e.key} {
      var j :| 0 <= j < |other| && other[j].key == x;
      if j < |p| { assert p[j].key == x; }
    }
    forall x | x in Keys(p) ensures x in Keys(other) {
      var j :| 0 <= j < |p| && p[j].key == x;
      assert other[j].key == x;
    }
    assert other[|p|].key == e.key;
  }

  /**
    A `std::map<int, V>` handed to an algorithm by reference: the algorithm
    rewrites its entries in place.
   */
  class Dict<V> {
    var entries: seq<Entry<V>>

    ghost predicate Valid()
      reads this
    {
      Ordered(entries)
    }

    constructor (d: seq<Entry<V>>)
      requires Ordered(d)
      ensures Valid() && entries == d
    {
      entries := d;
    }
  }
}
