/**
  The state of a multi-map: an ordered dictionary from each key to its
  container of values, and what the map's mutators do to that state.
  A key may be present with an empty container.
 */
module Buckets {
  import opened OrderedDict
  import opened Containers
  import opened Wrappers
  import opened SeqFacts

  /** The outer dictionary `std::map<int, Container>`. */
  type Data = seq<Entry<seq<int>>>

  /** The invariant of the map's state: ordered keys, and every container well formed for its kind. */
  ghost predicate Coherent(kind: Kind, d: Data) {
    Ordered(d) && forall i | 0 <= i < |d| :: WellFormed(kind, d[i].value)
  }

  /** The container of `k` as `get(k)` with its default returns it: empty when `k` is absent. */
  function Bucket(d: Data, k: int): (c: seq<int>)
    requires Ordered(d)
    ensures forall i | 0 <= i < |d| && d[i].key == k :: c == d[i].value
    ensures k !in Keys(d) ==> c == []
  {
    match Lookup(d, k)
    case Some(c) => c
    case None => []
  }

  lemma BucketWellFormed(kind: Kind, d: Data, k: int)
    requires Coherent(kind, d)
    ensures WellFormed(kind, Bucket(d, k))
  {
    if k in Keys(d) {
      var i :| 0 <= i < |d| && d[i].key == k;
    }
  }

  /** The number of values summed over all containers, in key order. */
  function TotalSize(d: Data): nat {
    if d == [] then 0 else TotalSize(d[..|d| - 1]) + |d[|d| - 1].value|
  }

  lemma {:induction false} TotalSizeAppend(a: Data, b: Data)
    ensures TotalSize(a + b) == TotalSize(a) + TotalSize(b)
    decreases |b|
  {
    if b == [] {
      assert a + b == a;
    } else {
      var b', e := b[..|b| - 1], b[|b| - 1];
      TotalSizeAppend(a, b');
      SplitLast(a, b);
      TotalSizeSnoc(a + b', e);
      TotalSizeSnoc(b', e);
    }
  }

  lemma TotalSizeSnoc(d: Data, e: Entry<seq<int>>)
    ensures TotalSize(d + [e]) == TotalSize(d) + |e.value|
  {
    assert (d + [e])[..|d|] == d;
  }

  /** The size splits around any one entry. */
  lemma TotalSizeSplit(d: Data, i: nat)
    requires i < |d|
    ensures TotalSize(d) == TotalSize(d[..i]) + |d[i].value| + TotalSize(d[i + 1..])
  {
    assert d == d[..i] + [d[i]] + d[i + 1..];
    TotalSizeAppend(d[..i] + [d[i]], d[i + 1..]);
    TotalSizeAppend(d[..i], [d[i]]);
    assert TotalSize([d[i]]) == |d[i].value| by {
      assert [d[i]][..0] == [];
    }
  }

  /** A key's count is its share of the total size. */
  lemma BucketBelowTotal(d: Data, k: int)
    requires Ordered(d)
    ensures |Bucket(d, k)| <= TotalSize(d)
  {
    if k in Keys(d) {
      var i :| 0 <= i < |d| && d[i].key == k;
      TotalSizeSplit(d, i);
    }
  }

  lemma TotalSizeReplace(d: Data, i: nat, e: Entry<seq<int>>)
    requires i < |d|
    ensures TotalSize(d[i := e]) == TotalSize(d) - |d[i].value| + |e.value|
  {
    var r := d[i := e];
    TotalSizeSplit(d, i);
    TotalSizeSplit(r, i);
    assert r[..i] == d[..i] && r[i + 1..] == d[i + 1..];
  }

  lemma TotalSizeInsertAt(d: Data, i: nat, e: Entry<seq<int>>)
    requires i <= |d|
    ensures TotalSize(d[..i] + [e] + d[i..]) == TotalSize(d) + |e.value|
  {
    var r := d[..i] + [e] + d[i..];
    TotalSizeSplit(r, i);
    assert r[..i] == d[..i] && r[i + 1..] == d[i..] && r[i] == e;
    TotalSizeAppend(d[..i], d[i..]);
    assert d == d[..i] + d[i..];
  }

  /** Storing container `c` under `k` changes the total by the difference of the two containers. */
  lemma TotalSizeAssign(d: Data, k: int, c: seq<int>)
    requires Ordered(d)
    ensures TotalSize(Assign(d, k, c)) == TotalSize(d) - |Bucket(d, k)| + |c|
  {
    var i := LowerBound(d, k);
    if i < |d| && d[i].key == k {
      assert Assign(d, k, c) == d[i := Entry(k, c)];
      TotalSizeReplace(d, i, Entry(k, c));
    } else {
      assert Assign(d, k, c) == d[..i] + [Entry(k, c)] + d[i..];
      TotalSizeInsertAt(d, i, Entry(k, c));
    }
  }

  /** What a store under `k` does to the containers. */
  lemma BucketAssign(d: Data, k: int, c: seq<int>, k': int)
    requires Ordered(d)
    ensures Bucket(Assign(d, k, c), k') == if k' == k then c else Bucket(d, k')
  {
    assert Lookup(Assign(d, k, c), k') == if k' == k then Some(c) else Lookup(d, k');
  }

  /** Every entry of `Assign(d, k, c)` is `(k, c)` or an entry of `d`. */
  lemma AssignCoherent(kind: Kind, d: Data, k: int, c: seq<int>)
    requires Coherent(kind, d) && WellFormed(kind, c)
    ensures Coherent(kind, Assign(d, k, c))
  {
    var i := LowerBound(d, k);
    if i < |d| && d[i].key == k {
      assert Assign(d, k, c) == d[i := Entry(k, c)];
      ReplaceWellFormed(kind, d, i, Entry(k, c));
    } else {
      assert Assign(d, k, c) == d[..i] + [Entry(k, c)] + d[i..];
      InsertWellFormed(kind, d, i, Entry(k, c));
    }
  }

  lemma ReplaceWellFormed(kind: Kind, d: Data, i: nat, e: Entry<seq<int>>)
    requires i < |d| && WellFormed(kind, e.value)
    requires forall j | 0 <= j < |d| :: WellFormed(kind, d[j].value)
    ensures var r := d[i := e];
      forall j | 0 <= j < |r| :: WellFormed(kind, r[j].value)
  {
  }

  lemma InsertWellFormed(kind: Kind, d: Data, i: nat, e: Entry<seq<int>>)
    requires i <= |d| && WellFormed(kind, e.value)
    requires forall j | 0 <= j < |d| :: WellFormed(kind, d[j].value)
    ensures var r := d[..i] + [e] + d[i..];
      forall j | 0 <= j < |r| :: WellFormed(kind, r[j].value)
  {
    var r := d[..i] + [e] + d[i..];
    assert forall j | 0 <= j < i :: r[j] == d[j];
    assert forall j | i < j < |r| :: r[j] == d[j - 1];
  }

  /** Overwriting a key with the container it already holds changes nothing. */
  lemma AssignSame(d: Data, k: int)
    requires Ordered(d) && k in Keys(d)
    ensures Assign(d, k, Bucket(d, k)) == d
  {
    var i := LowerBound(d, k);
    assert d[i].key == k;
    assert d[i := Entry(k, d[i].value)] == d;
  }

  /**
    `auto &container = data[key]` followed by a write to `container` is one
    store of the new container under `key`.
   */
  lemma StoreThroughSubscript(d: Data, k: int, c: seq<int>)
    requires Ordered(d)
    ensures var t := Insert(d, k, []);
      var i := Find(t, k);
      i < |t| && t[i].value == Bucket(d, k) && t[i := Entry(k, c)] == Assign(d, k, c)
  {
    var j := LowerBound(d, k);
    if j < |d| && d[j].key == k {
      assert Insert(d, k, []) == d;
      assert Find(d, k) == j;
      assert Assign(d, k, c) == d[j := Entry(k, c)];
    } else {
      SubscriptInserts(d, k, c, j);
    }
  }

  /** The absent-key case: the new empty entry sits where the assignment would put `(k, c)`. */
  lemma SubscriptInserts(d: Data, k: int, c: seq<int>, j: nat)
    requires Ordered(d) && j == LowerBound(d, k) && !(j < |d| && d[j].key == k)
    ensures var t := Insert(d, k, []);
      var i := Find(t, k);
      i < |t| && t[i].value == Bucket(d, k) && t[i := Entry(k, c)] == Assign(d, k, c)
  {
    InsertShape(d, k, [], j);
    var t := d[..j] + [Entry(k, [])] + d[j..];
    FindInserted(t, k, j);
    assert Assign(d, k, c) == d[..j] + [Entry(k, c)] + d[j..];
    ReplaceInserted(d, j, Entry(k, []), Entry(k, c));
  }

  lemma InsertShape(d: Data, k: int, c: seq<int>, j: nat)
    requires Ordered(d) && j == LowerBound(d, k) && !(j < |d| && d[j].key == k)
    ensures Insert(d, k, c) == d[..j] + [Entry(k, c)] + d[j..]
  {
    assert Find(d, k) == |d|;
  }

  lemma FindInserted(t: Data, k: int, j: nat)
    requires Ordered(t) && j < |t| && t[j].key == k
    ensures Find(t, k) == j
  {
    IndexOfKey(t, Find(t, k), j);
  }

  lemma ReplaceInserted(d: Data, j: nat, e: Entry<seq<int>>, e': Entry<seq<int>>)
    requires j <= |d|
    ensures (d[..j] + [e] + d[j..])[j := e'] == d[..j] + [e'] + d[j..]
  {
  }

  /** A container taken out of the map by key is removed by key too. */
  lemma RemoveFound(d: Data, i: nat)
    requires Ordered(d) && i < |d|
    ensures Remove(d, d[i].key) == d[..i] + d[i + 1..]
    ensures TotalSize(d[..i] + d[i + 1..]) == TotalSize(d) - |d[i].value|
  {
    IndexOfKey(d, i, Find(d, d[i].key));
    TotalSizeSplit(d, i);
    TotalSizeAppend(d[..i], d[i + 1..]);
  }

  lemma RemoveCoherent(kind: Kind, d: Data, i: nat)
    requires Coherent(kind, d) && i < |d|
    ensures Coherent(kind, d[..i] + d[i + 1..])
  {
    RemoveAt(d, i);
    var r := d[..i] + d[i + 1..];
    assert forall j | 0 <= j < i :: r[j] == d[j];
    assert forall j | i <= j < |r| :: r[j] == d[j + 1];
  }

  /** The state after `emplace(k, v)`: v added to k's container, which is created empty first if needed. */
  function Emplaced(kind: Kind, d: Data, k: int, v: int): (r: Data)
    requires Coherent(kind, d)
    ensures Coherent(kind, r)
  {
    BucketWellFormed(kind, d, k);
    AssignCoherent(kind, d, k, Add(kind, Bucket(d, k), v));
    Assign(d, k, Add(kind, Bucket(d, k), v))
  }

  /** With a vector container, `emplace` appends to the key's values and to nothing else. */
  lemma EmplaceSequence(d: Data, k: int, v: int)
    requires Coherent(Sequence, d)
    ensures Bucket(Emplaced(Sequence, d, k, v), k) == Bucket(d, k) + [v]
    ensures forall k' | k' != k :: Bucket(Emplaced(Sequence, d, k, v), k') == Bucket(d, k')
    ensures Keys(Emplaced(Sequence, d, k, v)) == Keys(d) + {k}
    ensures TotalSize(Emplaced(Sequence, d, k, v)) == TotalSize(d) + 1
  {
    var c := Add(Sequence, Bucket(d, k), v);
    assert c == Bucket(d, k) + [v];
    assert Emplaced(Sequence, d, k, v) == Assign(d, k, c);
    BucketAssign(d, k, c, k);
    forall k' | k' != k ensures Bucket(Assign(d, k, c), k') == Bucket(d, k') {
      BucketAssign(d, k, c, k');
    }
    TotalSizeAssign(d, k, c);
  }

  /**
    With a set container, `emplace` adds `v` to the key's set; when `v` is
    already there, the map is left exactly as it was.
   */
  lemma EmplaceUnique(d: Data, k: int, v: int)
    requires Coherent(Unique, d)
    ensures forall x :: x in Bucket(Emplaced(Unique, d, k, v), k) <==> x in Bucket(d, k) || x == v
    ensures |Bucket(Emplaced(Unique, d, k, v), k)| == |Bucket(d, k)| + (if v in Bucket(d, k) then 0 else 1)
    ensures forall k' | k' != k :: Bucket(Emplaced(Unique, d, k, v), k') == Bucket(d, k')
    ensures v in Bucket(d, k) ==> Emplaced(Unique, d, k, v) == d
  {
    BucketWellFormed(Unique, d, k);
    var c := Add(Unique, Bucket(d, k), v);
    if v in Bucket(d, k) {
      assert c == Bucket(d, k);
      AssignSame(d, k);
    }
  }

  /** `operator[]` on an absent key creates an entry whose container is empty. */
  lemma SubscriptCreatesEmpty(d: Data, k: int)
    requires Ordered(d)
    ensures k in Keys(Insert(d, k, []))
    ensures Bucket(Insert(d, k, []), k) == Bucket(d, k)
    ensures forall k' | k' != k :: Bucket(Insert(d, k, []), k') == Bucket(d, k')
    ensures TotalSize(Insert(d, k, [])) == TotalSize(d)
  {
    if k !in Keys(d) {
      TotalSizeAssign(d, k, []);
    }
  }

  /** After `erase(k)`: `k` is gone, other keys keep their values, and `count(k)` values left the map. */
  lemma EraseKeyEffect(d: Data, k: int)
    requires Ordered(d)
    ensures k !in Keys(Remove(d, k))
    ensures forall k' | k' != k :: Bucket(Remove(d, k), k') == Bucket(d, k')
    ensures TotalSize(Remove(d, k)) == TotalSize(d) - |Bucket(d, k)|
  {
    forall k' | k' != k ensures Bucket(Remove(d, k), k') == Bucket(d, k') {
      assert Lookup(Remove(d, k), k') == Lookup(d, k');
    }
    EraseKeySize(d, k);
  }

  lemma EraseKeySize(d: Data, k: int)
    requires Ordered(d)
    ensures TotalSize(Remove(d, k)) == TotalSize(d) - |Bucket(d, k)|
  {
    var i := Find(d, k);
    if i < |d| {
      RemoveFound(d, i);
      assert Bucket(d, k) == d[i].value;
    } else {
      assert Remove(d, k) == d;
    }
  }

  /**
    The state after `erase(k, v)` finds `k`: `v` removed from k's container,
    which keeps its key even when it is left empty.
   */
  function ErasedValue(kind: Kind, d: Data, k: int, v: int): (r: Data)
    requires Coherent(kind, d)
    ensures Coherent(kind, r)
  {
    BucketWellFormed(kind, d, k);
    AssignCoherent(kind, d, k, EraseOne(kind, Bucket(d, k), v));
    Assign(d, k, EraseOne(kind, Bucket(d, k), v))
  }

  /**
    After a successful `erase(k, v)`: the key stays present even if its
    container is now empty, exactly one value left that container, and the
    other keys are untouched.
   */
  lemma EraseValueEffect(kind: Kind, d: Data, k: int, v: int)
    requires Coherent(kind, d)
    requires v in Bucket(d, k)
    ensures Keys(ErasedValue(kind, d, k, v)) == Keys(d)
    ensures multiset(Bucket(ErasedValue(kind, d, k, v), k)) == multiset(Bucket(d, k)) - multiset{v}
    ensures forall k' | k' != k :: Bucket(ErasedValue(kind, d, k, v), k') == Bucket(d, k')
    ensures TotalSize(ErasedValue(kind, d, k, v)) == TotalSize(d) - 1
  {
    BucketWellFormed(kind, d, k);
    var c := EraseOne(kind, Bucket(d, k), v);
    assert ErasedValue(kind, d, k, v) == Assign(d, k, c);
    EraseOneSize(kind, Bucket(d, k), v);
    StoreSmaller(d, k, c);
  }

  /** Erasing a value that is there takes exactly one value out of the container. */
  lemma EraseOneSize(kind: Kind, c: seq<int>, v: int)
    requires WellFormed(kind, c) && v in c
    ensures |EraseOne(kind, c, v)| == |c| - 1
  {
    assert |multiset(EraseOne(kind, c, v))| == |multiset(c)| - 1;
  }

  /** Storing a container one value shorter under a present key. */
  lemma StoreSmaller(d: Data, k: int, c: seq<int>)
    requires Ordered(d) && |c| + 1 == |Bucket(d, k)|
    ensures Keys(Assign(d, k, c)) == Keys(d)
    ensures Bucket(Assign(d, k, c), k) == c
    ensures forall k' | k' != k :: Bucket(Assign(d, k, c), k') == Bucket(d, k')
    ensures TotalSize(Assign(d, k, c)) == TotalSize(d) - 1
  {
    assert k in Keys(d);
    BucketAssign(d, k, c, k);
    forall k' | k' != k ensures Bucket(Assign(d, k, c), k') == Bucket(d, k') {
      BucketAssign(d, k, c, k');
    }
    TotalSizeAssign(d, k, c);
  }

  /** The state after `insert(key, first, last)`: the range added to key's container, created first if needed. */
  function InsertedRange(kind: Kind, d: Data, k: int, vs: seq<int>): (r: Data)
    requires Coherent(kind, d)
    ensures Coherent(kind, r)
  {
    BucketWellFormed(kind, d, k);
    AssignCoherent(kind, d, k, AddAll(kind, Bucket(d, k), vs));
    Assign(d, k, AddAll(kind, Bucket(d, k), vs))
  }

  lemma InsertedRangeBucket(kind: Kind, d: Data, k: int, vs: seq<int>, k': int)
    requires Coherent(kind, d) && WellFormed(kind, Bucket(d, k))
    ensures Bucket(InsertedRange(kind, d, k, vs), k') ==
      if k' == k then AddAll(kind, Bucket(d, k), vs) else Bucket(d, k')
  {
    BucketAssign(d, k, AddAll(kind, Bucket(d, k), vs), k');
  }

  /** The state after inserting a sequence of pairs one `emplace` at a time. */
  function InsertedPairs(kind: Kind, d: Data, pairs: seq<(int, int)>): (r: Data)
    requires Coherent(kind, d)
    ensures Coherent(kind, r)
    decreases |pairs|
  {
    if pairs == [] then d
    else
      var p := pairs[|pairs| - 1];
      Emplaced(kind, InsertedPairs(kind, d, pairs[..|pairs| - 1]), p.0, p.1)
  }

  lemma InsertedPairsStep(kind: Kind, d: Data, pairs: seq<(int, int)>, i: nat)
    requires Coherent(kind, d) && i < |pairs|
    ensures InsertedPairs(kind, d, pairs[..i + 1]) ==
      Emplaced(kind, InsertedPairs(kind, d, pairs[..i]), pairs[i].0, pairs[i].1)
  {
    assert pairs[..i + 1][..i] == pairs[..i];
  }

  /** With vector containers every inserted pair is kept: the size grows by the number of pairs. */
  lemma {:induction false} InsertedPairsSize(d: Data, pairs: seq<(int, int)>)
    requires Coherent(Sequence, d)
    ensures TotalSize(InsertedPairs(Sequence, d, pairs)) == TotalSize(d) + |pairs|
    decreases |pairs|
  {
    if pairs != [] {
      var p := pairs[|pairs| - 1];
      InsertedPairsSize(d, pairs[..|pairs| - 1]);
      EmplaceSequence(InsertedPairs(Sequence, d, pairs[..|pairs| - 1]), p.0, p.1);
    }
  }

  /** The state after `merge(other)`: every entry of `other`, in order, range-inserted. */
  function Merged(kind: Kind, d: Data, other: Data): (r: Data)
    requires Coherent(kind, d)
    ensures Coherent(kind, r)
    decreases |other|
  {
    if other == [] then d
    else
      var e := other[|other| - 1];
      InsertedRange(kind, Merged(kind, d, other[..|other| - 1]), e.key, e.value)
  }

  /** One more entry of `other` merged is one more range insertion. */
  lemma MergedStep(kind: Kind, d: Data, other: Data, i: nat)
    requires Coherent(kind, d) && i < |other|
    ensures Merged(kind, d, other[..i + 1])
      == InsertedRange(kind, Merged(kind, d, other[..i]), other[i].key, other[i].value)
  {
    assert other[..i + 1][..i] == other[..i];
  }

  /** The last entry of an ordered dictionary holds its largest key. */
  lemma BucketSnoc(d: Data, e: Entry<seq<int>>, k: int)
    requires Ordered(d + [e])
    ensures Ordered(d)
    ensures e.key !in Keys(d)
    ensures Bucket(d + [e], k) == if k == e.key then e.value else Bucket(d, k)
  {
    var r := d + [e];
    assert forall j | 0 <= j < |d| :: r[j] == d[j];
    assert r[|d|] == e;
    if k != e.key && k in Keys(d) {
      var j :| 0 <= j < |d| && d[j].key == k;
      assert r[j].key == k;
    }
  }

  /** Merging adds exactly `other`'s keys. */
  lemma {:induction false} MergeKeys(kind: Kind, d: Data, other: Data)
    requires Coherent(kind, d)
    ensures Keys(Merged(kind, d, other)) == Keys(d) + Keys(other)
    decreases |other|
  {
    if other == [] {
      assert Keys(other) == {};
    } else {
      var p := other[..|other| - 1];
      var e := other[|other| - 1];
      assert other == p + [e];
      KeysSnoc(p, e);
      MergeKeys(kind, d, p);
    }
  }

  /** With vector containers, merging appends each of `other`'s containers to the matching one. */
  lemma {:induction false} MergeSequence(d: Data, other: Data, k: int)
    requires Coherent(Sequence, d) && Ordered(other)
    ensures Bucket(Merged(Sequence, d, other), k) == Bucket(d, k) + Bucket(other, k)
    decreases |other|
  {
    if other == [] {
      assert Bucket(other, k) == [];
    } else {
      var p := other[..|other| - 1];
      var e := other[|other| - 1];
      assert other == p + [e];
      BucketSnoc(p, e, k);
      MergeSequence(d, p, k);
      var m := Merged(Sequence, d, p);
      assert Merged(Sequence, d, other) == InsertedRange(Sequence, m, e.key, e.value);
      BucketWellFormed(Sequence, m, e.key);
      InsertedRangeBucket(Sequence, m, e.key, e.value, k);
      if k == e.key {
        assert Bucket(p, k) == [];
        assert Bucket(m, k) == Bucket(d, k);
        assert Bucket(other, k) == e.value;
      } else {
        assert Bucket(other, k) == Bucket(p, k);
      }
    }
  }

  /** With set containers, merging unites each key's set with `other`'s set for that key. */
  lemma {:induction false} MergeUnique(d: Data, other: Data, k: int)
    requires Coherent(Unique, d) && Ordered(other)
    ensures forall x :: x in Bucket(Merged(Unique, d, other), k) <==> x in Bucket(d, k) || x in Bucket(other, k)
    decreases |other|
  {
    if other == [] {
      assert Bucket(other, k) == [];
    } else {
      var p := other[..|other| - 1];
      var e := other[|other| - 1];
      assert other == p + [e];
      BucketSnoc(p, e, k);
      MergeUnique(d, p, k);
      var m := Merged(Unique, d, p);
      BucketWellFormed(Unique, m, k);
      if k == e.key {
        assert e.key !in Keys(p);
      }
    }
  }
}
