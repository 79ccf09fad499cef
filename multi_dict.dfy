/**
  `MultiMap`: an ordered dictionary from each key to a container of values,
  whose container kind decides whether values repeat, and its flattened
  read-only `Iterator`.
 */
module MultiDict {
  import opened Wrappers
  import opened OrderedDict
  import opened Containers
  import opened Buckets
  import opened Iteration
  import opened SeqFacts

  /** The failure `at` signals for an absent key (`std::out_of_range`). */
  datatype Error = OutOfRange

  /**
    The flattened iterator. `entries` is the map's dictionary as the iterator
    reads it, so `|entries|` is the outer end; `outer` and `inner` are the
    outer and inner cursors.
   */
  class Iterator {
    const entries: Data
    var outer: nat
    var inner: nat

    function Position(): Pos
      reads this
    {
      Pos(outer, inner)
    }

    /** Either the end, or a cursor on an actual value. */
    ghost predicate Valid()
      reads this
    {
      Normalized(entries, Position())
    }

    constructor (d: Data, o: nat, i: nat)
      requires InRange(d, Pos(o, i))
      ensures entries == d && Position() == NextValid(d, Pos(o, i))
      ensures Valid()
    {
      entries := d;
      outer := o;
      inner := i;
      new;
      AdvanceToNextValid();
    }

    /** `advance_to_next_valid`: skip exhausted and empty containers. */
    method AdvanceToNextValid()
      requires InRange(entries, Position())
      modifies this
      ensures Position() == NextValid(entries, old(Position()))
    {
      while outer < |entries| && inner == |entries[outer].value|
        invariant InRange(entries, Position())
        invariant NextValid(entries, Position()) == NextValid(entries, old(Position()))
        decreases |entries| - outer
      {
        outer := outer + 1;
        if outer < |entries| {
          inner := 0;
        }
      }
    }

    /** `key()`: the key of the pair at this position's flattened index. */
    function Key(): (k: int)
      reads this
      requires Valid() && outer < |entries|
      ensures Offset(entries, Position()) < TotalSize(entries)
      ensures k == Flatten(entries)[Offset(entries, Position())].0
    {
      DesignatedPair(entries, Position());
      entries[outer].key
    }

    /** `value()`: the value of the pair at this position's flattened index. */
    function Value(): (v: int)
      reads this
      requires Valid() && outer < |entries|
      ensures Offset(entries, Position()) < TotalSize(entries)
      ensures v == Flatten(entries)[Offset(entries, Position())].1
    {
      DesignatedPair(entries, Position());
      entries[outer].value[inner]
    }

    /** `operator*`: the designated pair is the flattened map's pair at this position's offset. */
    function Current(): (r: (int, int))
      reads this
      requires Valid() && outer < |entries|
      ensures Offset(entries, Position()) < TotalSize(entries)
      ensures r == Flatten(entries)[Offset(entries, Position())]
    {
      (Key(), Value())
    }

    /** `operator++`. */
    method Increment()
      requires Valid()
      modifies this
      ensures Valid() && Position() == Successor(entries, old(Position()))
    {
      if outer < |entries| {
        inner := inner + 1;
        AdvanceToNextValid();
      }
    }

    /** Postfix `operator++`: a copy of the position before the step. */
    method PostIncrement() returns (previous: Iterator)
      requires Valid()
      modifies this
      ensures fresh(previous) && previous.entries == entries && previous.Valid()
      ensures previous.Position() == old(Position())
      ensures Valid() && Position() == Successor(entries, old(Position()))
    {
      previous := new Iterator(entries, outer, inner);
      Increment();
    }

    /**
      `operator==`: the same outer cursor, and the same inner cursor unless at
      the end. Over one map this is equality of flattened offsets.
     */
    predicate Equals(other: Iterator)
      reads this, other
      ensures Valid() && other.Valid() && other.entries == entries ==>
        (Equals(other) <==> Offset(entries, Position()) == Offset(entries, other.Position()))
    {
      SameIterator(entries, Position(), other.Position())
    }
  }

  /**
    The pairs a client loop `for (; first != last; ++first)` visits: the
    flattened map between the two offsets.
   */
  method Walk(first: Iterator, last: Iterator) returns (pairs: seq<(int, int)>)
    requires first.Valid() && last.Valid() && last.entries == first.entries
    requires Offset(first.entries, first.Position()) <= Offset(first.entries, last.Position())
    ensures Offset(first.entries, last.Position()) <= TotalSize(first.entries)
    ensures pairs == Flatten(first.entries)[Offset(first.entries, first.Position())..Offset(first.entries, last.Position())]
  {
    var d := first.entries;
    ghost var f := Flatten(d);
    ghost var lo, hi := Offset(d, first.Position()), Offset(d, last.Position());
    OffsetBound(d, last.Position());
    var it := new Iterator(d, first.outer, first.inner);
    ghost var at := lo;
    pairs := [];
    while !it.Equals(last)
      invariant it.entries == d && it.Valid() && fresh(it)
      invariant at == Offset(d, it.Position()) && lo <= at <= hi
      invariant pairs == f[lo..at]
      decreases hi - at
    {
      OffsetBound(d, it.Position());
      var pair := it.Current();
      SliceExtend(f, lo, at);
      pairs := pairs + [pair];
      SuccessorOffset(d, it.Position());
      it.Increment();
      at := at + 1;
    }
  }

  /** A range-for over the whole map: every pair in key order, each key's values in container order. */
  method Traverse(m: MultiMap) returns (pairs: seq<(int, int)>)
    ensures pairs == Flatten(m.data)
    ensures |pairs| == TotalSize(m.data)
  {
    var first := m.Begin();
    var last := m.End();
    pairs := Walk(first, last);
  }

  /** A loop over `equal_range(k)`: k's values, in container order, and nothing else. */
  method TraverseKey(m: MultiMap, k: int) returns (pairs: seq<(int, int)>)
    requires m.Valid()
    ensures |pairs| == |Bucket(m.data, k)|
    ensures forall j | 0 <= j < |pairs| :: pairs[j] == (k, Bucket(m.data, k)[j])
  {
    var first, last := m.EqualRange(k);
    pairs := Walk(first, last);
  }

  class MultiMap {
    /** Vector (`Sequence`) or set (`Unique`) containers. */
    const kind: Kind
    var data: Data

    ghost predicate Valid()
      reads this
    {
      Coherent(kind, data)
    }

    constructor (kind: Kind)
      ensures Valid() && this.kind == kind && data == []
    {
      this.kind := kind;
      data := [];
    }

    /** The range and initializer-list constructors: every pair inserted, in order. */
    constructor FromPairs(kind: Kind, pairs: seq<(int, int)>)
      ensures Valid() && this.kind == kind && data == InsertedPairs(kind, [], pairs)
    {
      this.kind := kind;
      data := [];
      new;
      InsertPairs(pairs);
    }

    /** `empty()`: no key at all; keys holding empty containers count as content. */
    function Empty(): (b: bool)
      reads this
      ensures b <==> Keys(data) == {}
      ensures b ==> TotalSize(data) == 0
    {
      assert data != [] ==> data[0].key in Keys(data);
      |data| == 0
    }

    /** `size()`: the number of values, summed container by container. */
    method Size() returns (n: nat)
      ensures n == TotalSize(data)
    {
      n := 0;
      var i := 0;
      while i < |data|
        invariant 0 <= i <= |data|
        invariant n == TotalSize(data[..i])
      {
        assert data[..i + 1][..i] == data[..i];
        n := n + |data[i].value|;
        i := i + 1;
      }
      assert data[..|data|] == data;
    }

    /** `total_value_count()`: the same sum as `size()`. */
    method TotalValueCount() returns (n: nat)
      ensures n == TotalSize(data)
    {
      n := Size();
    }

    /** `clear()`. */
    method Clear()
      modifies this
      ensures Valid() && data == []
    {
      data := [];
    }

    /** `insert(value)`: the same as `emplace`. */
    method Insert(k: int, v: int) returns (it: Iterator)
      requires Valid()
      modifies this
      ensures Valid() && data == Emplaced(kind, old(data), k, v)
      ensures fresh(it) && it.entries == data && it.Valid() && it.outer < |data|
      ensures it.Key() == k && it.Value() == v
      ensures kind == Sequence ==> it.inner == |data[it.outer].value| - 1
    {
      it := Emplace(k, v);
    }

    /**
      `emplace(k, v)`: take k's container, creating an empty one if needed,
      add `v` by the container's capability, and return an iterator on the
      added value (the last one of a vector, the set's element equal to `v`).
     */
    method Emplace(k: int, v: int) returns (it: Iterator)
      requires Valid()
      modifies this
      ensures Valid() && data == Emplaced(kind, old(data), k, v)
      ensures fresh(it) && it.entries == data && it.Valid() && it.outer < |data|
      ensures it.Key() == k && it.Value() == v
      ensures kind == Sequence ==> it.inner == |data[it.outer].value| - 1
    {
      var o, j := Place(k, v);
      it := new Iterator(data, o, j);
    }

    /**
      The update `emplace` performs, and where the added value sits: entry
      `o` of the dictionary, index `j` of its container.
     */
    method Place(k: int, v: int) returns (o: nat, j: nat)
      requires Valid()
      modifies this
      ensures Valid() && data == Emplaced(kind, old(data), k, v)
      ensures o < |data| && data[o].key == k && j < |data[o].value| && data[o].value[j] == v
      ensures kind == Sequence ==> j == |data[o].value| - 1
    {
      var t := OrderedDict.Insert(data, k, []);
      var i := OrderedDict.Find(t, k);
      BucketWellFormed(kind, data, k);
      StoreThroughSubscript(data, k, Add(kind, Bucket(data, k), v));
      var c := Add(kind, t[i].value, v);
      data := t[i := Entry(k, c)];
      j := if kind == Sequence then |c| - 1 else FirstIndex(c, v);
      o := OrderedDict.Find(data, k);
      IndexOfKey(data, o, i);
    }

    /** `insert(first, last)` and `insert(init)`: one `insert` per pair, in order. */
    method InsertPairs(pairs: seq<(int, int)>)
      requires Valid()
      modifies this
      ensures Valid() && data == InsertedPairs(kind, old(data), pairs)
    {
      var i := 0;
      while i < |pairs|
        invariant 0 <= i <= |pairs|
        invariant Valid() && data == InsertedPairs(kind, old(data), pairs[..i])
      {
        InsertedPairsStep(kind, old(data), pairs, i);
        var _, _ := Place(pairs[i].0, pairs[i].1);
        i := i + 1;
      }
      assert pairs[..|pairs|] == pairs;
    }

    /**
      `insert(key, first, last)`: k's container, created if needed (even for
      an empty range), receives the whole range.
     */
    method InsertRange(k: int, vs: seq<int>)
      requires Valid()
      modifies this
      ensures Valid() && data == InsertedRange(kind, old(data), k, vs)
    {
      var t := OrderedDict.Insert(data, k, []);
      var i := OrderedDict.Find(t, k);
      BucketWellFormed(kind, data, k);
      StoreThroughSubscript(data, k, AddAll(kind, Bucket(data, k), vs));
      data := t[i := Entry(k, AddAll(kind, t[i].value, vs))];
    }

    /**
      `erase(pos)`. The end erases nothing. Otherwise the key and value `pos`
      designates are looked up again in the map: the first equal value in
      that key's container goes, and so does the key if its container is
      left empty.
     */
    method EraseAt(pos: Iterator) returns (next: Iterator)
      requires Valid() && pos.Valid()
      modifies this
      ensures Valid() && fresh(next) && next.entries == data && next.Valid()
      ensures pos.outer == |pos.entries| ==> data == old(data) && next.outer == |data|
      ensures pos.outer < |pos.entries| ==>
        (data, next.Position()) == ErasedAt(kind, old(data), pos.Key(), pos.Value())
    {
      if pos.outer == |pos.entries| {
        next := End();
        return;
      }
      var k, v := pos.Key(), pos.Value();
      var i := OrderedDict.Find(data, k);
      if i < |data| {
        var c := data[i].value;
        var j := FirstIndex(c, v);
        if j < |c| {
          var c' := c[..j] + c[j + 1..];
          assert c' == EraseOne(kind, c, v);
          if c' == [] {
            ErasedAtRemove(kind, data, k, v, i, j);
            RemoveCoherent(kind, data, i);
            data := data[..i] + data[i + 1..];
            if i == |data| {
              next := End();
              return;
            }
            next := new Iterator(data, i, 0);
            return;
          }
          ErasedAtReplace(kind, data, k, v, i, j, c');
          data := data[i := Entry(k, c')];
          next := new Iterator(data, i, j);
          return;
        }
      }
      ErasedAtMiss(kind, data, k, v);
      next := End();
    }

    /** `erase(k)`: drop k with its container and return how many values it held. */
    method EraseKey(k: int) returns (n: nat)
      requires Valid()
      modifies this
      ensures Valid() && data == Remove(old(data), k)
      ensures n == |Bucket(old(data), k)|
    {
      var i := OrderedDict.Find(data, k);
      if i < |data| {
        n := |data[i].value|;
        RemoveFound(data, i);
        RemoveCoherent(kind, data, i);
        data := data[..i] + data[i + 1..];
        return;
      }
      n := 0;
    }

    /**
      `erase(k, v)`: a vector loses the first `v`, a set loses `v`; the key
      is kept even when its container empties. Reports whether a value went.
     */
    method EraseValue(k: int, v: int) returns (removed: bool)
      requires Valid()
      modifies this
      ensures Valid()
      ensures removed <==> k in Keys(old(data)) && v in Bucket(old(data), k)
      ensures data == if removed then ErasedValue(kind, old(data), k, v) else old(data)
    {
      var i := OrderedDict.Find(data, k);
      if i < |data| {
        var c := data[i].value;
        StoreThroughSubscript(data, k, EraseOne(kind, c, v));
        match kind
        case Sequence =>
          var j := FirstIndex(c, v);
          if j < |c| {
            data := data[i := Entry(k, c[..j] + c[j + 1..])];
            return true;
          }
        case Unique =>
          var c' := Without(c, v);
          if v in c {
            WithoutSorted(c, v);
          } else {
            assert data[i := Entry(k, c')] == data;
          }
          data := data[i := Entry(k, c')];
          return |c'| < |c|;
      }
      return false;
    }

    /** `count(k)`: the size of k's container, 0 for an absent key. */
    function Count(k: int): (n: nat)
      reads this
      requires Valid()
      ensures k !in Keys(data) ==> n == 0
      ensures forall i | 0 <= i < |data| && data[i].key == k :: n == |data[i].value|
      ensures n <= TotalSize(data)
    {
      BucketBelowTotal(data, k);
      var i := OrderedDict.Find(data, k);
      if i < |data| then |data[i].value| else 0
    }

    /** `find(k)`: k's first value, or the end when k is absent or its container empty. */
    method Find(k: int) returns (it: Iterator)
      requires Valid()
      ensures fresh(it) && it.entries == data && it.Valid()
      ensures it.outer == |data| <==> Bucket(data, k) == []
      ensures it.outer < |data| ==> it.Current() == (k, Bucket(data, k)[0])
      ensures it.outer < |data| ==>
        forall j | 0 <= j < Offset(data, it.Position()) :: Flatten(data)[j].0 != k
    {
      var i := OrderedDict.Find(data, k);
      if i < |data| && data[i].value != [] {
        it := new Iterator(data, i, 0);
        KeyOccurrences(data, i);
        DesignatedPair(data, it.Position());
      } else {
        it := End();
      }
    }

    /**
      `equal_range(k)`: the two ends of k's values; between them lie exactly
      the pairs whose key is `k`, in container order.
     */
    method EqualRange(k: int) returns (first: Iterator, last: Iterator)
      requires Valid()
      ensures fresh(first) && fresh(last) && first.entries == data && last.entries == data
      ensures first.Valid() && last.Valid()
      ensures Offset(data, first.Position()) <= Offset(data, last.Position()) <= TotalSize(data)
      ensures Flatten(data)[Offset(data, first.Position())..Offset(data, last.Position())]
        == Pairs(Entry(k, Bucket(data, k)))
      ensures forall j | 0 <= j < TotalSize(data) ::
        Flatten(data)[j].0 == k <==> Offset(data, first.Position()) <= j < Offset(data, last.Position())
      ensures k !in Keys(data) ==> first.outer == |data| && last.outer == |data|
      ensures (first.Position(), last.Position()) == KeyRange(data, k)
    {
      KeyRangeSpec(data, k);
      var i := OrderedDict.Find(data, k);
      if i == |data| {
        first := End();
        last := End();
        return;
      }
      first := new Iterator(data, i, 0);
      last := new Iterator(data, i, |data[i].value|);
    }

    /** `begin()`: the first value, or the end when there is none. */
    method Begin() returns (it: Iterator)
      ensures fresh(it) && it.entries == data && it.Valid()
      ensures Offset(data, it.Position()) == 0
    {
      if |data| == 0 {
        it := End();
        return;
      }
      it := new Iterator(data, 0, 0);
      NextValidOffset(data, Pos(0, 0));
    }

    /** `end()`. */
    method End() returns (it: Iterator)
      ensures fresh(it) && it.entries == data && it.Valid()
      ensures it.Position() == Iteration.End(data) && Offset(data, it.Position()) == TotalSize(data)
    {
      it := new Iterator(data, |data|, 0);
      assert data[..|data|] == data;
    }

    /** `contains(k)`. */
    function Contains(k: int): (b: bool)
      reads this
      requires Valid()
      ensures b <==> k in Keys(data)
    {
      OrderedDict.Find(data, k) < |data|
    }

    /** `keys()`: every key once, ascending. */
    method KeyList() returns (ks: seq<int>)
      requires Valid()
      ensures |ks| == |data| && forall i | 0 <= i < |ks| :: ks[i] == data[i].key
      ensures forall i, j | 0 <= i < j < |ks| :: ks[i] < ks[j]
      ensures forall x :: x in ks <==> x in Keys(data)
    {
      ks := [];
      var i := 0;
      while i < |data|
        invariant 0 <= i <= |data|
        invariant |ks| == i && forall j | 0 <= j < i :: ks[j] == data[j].key
      {
        ks := ks + [data[i].key];
        i := i + 1;
      }
    }

    /** `get(k, fallback)`: a copy of k's container, or `fallback` when k is absent. */
    function Get(k: int, fallback: seq<int>): (c: seq<int>)
      reads this
      requires Valid()
      ensures k in Keys(data) ==> c == Bucket(data, k)
      ensures k !in Keys(data) ==> c == fallback
    {
      var i := OrderedDict.Find(data, k);
      if i < |data| then data[i].value else fallback
    }

    /** `operator[](k)`: k's container, created empty when k is absent. */
    method Subscript(k: int) returns (c: seq<int>)
      requires Valid()
      modifies this
      ensures Valid() && data == OrderedDict.Insert(old(data), k, [])
      ensures c == Bucket(old(data), k)
    {
      if k !in Keys(data) {
        AssignCoherent(kind, data, k, []);
      }
      SubscriptCreatesEmpty(data, k);
      data := OrderedDict.Insert(data, k, []);
      c := data[OrderedDict.Find(data, k)].value;
    }

    /** `at(k)`: k's container, or `OutOfRange` when k is absent. */
    function At(k: int): (r: Result<seq<int>, Error>)
      reads this
      requires Valid()
      ensures r.Success? <==> k in Keys(data)
      ensures r.Success? ==> r.value == Bucket(data, k)
      ensures r.Failure? ==> r.error == OutOfRange
    {
      var i := OrderedDict.Find(data, k);
      if i < |data| then Success(data[i].value) else Failure(OutOfRange)
    }

    /** `merge(other)`: every container of `other`, in key order, range-inserted under its key. */
    method Merge(other: MultiMap)
      requires Valid() && other.Valid() && other.kind == kind && other != this
      modifies this
      ensures Valid() && data == Merged(kind, old(data), other.data)
      ensures unchanged(other)
    {
      var src := other.data;
      var i := 0;
      while i < |src|
        invariant 0 <= i <= |src|
        invariant Valid() && data == Merged(kind, old(data), src[..i])
      {
        MergedStep(kind, old(data), src, i);
        InsertRange(src[i].key, src[i].value);
        i := i + 1;
      }
      assert src[..|src|] == src;
    }

    /** `key_count()`: the number of distinct keys. */
    function KeyCount(): (n: nat)
      reads this
      requires Valid()
      ensures n == |Keys(data)|
    {
      KeysCardinality(data);
      |data|
    }

    /** `value_count(k)`: the same as `count(k)`. */
    function ValueCount(k: int): (n: nat)
      reads this
      requires Valid()
      ensures n == |Bucket(data, k)|
    {
      Count(k)
    }
  }
}
