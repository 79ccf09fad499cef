/**
  The flattened view of a multi-map that its iterator walks: every
  `(key, value)` pair, keys in dictionary order and each key's values in
  container order. An iterator position is a pair of indices, one into the
  outer dictionary and one into the current container.
 */
module Iteration {
  import opened OrderedDict
  import opened Containers
  import opened Buckets
  import opened SeqFacts

  /** The pairs one entry contributes, in container order. */
  function Pairs(e: Entry<seq<int>>): (r: seq<(int, int)>)
    ensures |r| == |e.value|
    ensures forall j | 0 <= j < |r| :: r[j] == (e.key, e.value[j])
  {
    seq(|e.value|, j requires 0 <= j < |e.value| => (e.key, e.value[j]))
  }

  /** Every pair of the map in iteration order; there are as many as the map's size. */
  function Flatten(d: Data): (r: seq<(int, int)>)
    ensures |r| == TotalSize(d)
  {
    if d == [] then [] else Flatten(d[..|d| - 1]) + Pairs(d[|d| - 1])
  }

  lemma {:induction false} FlattenAppend(a: Data, b: Data)
    ensures Flatten(a + b) == Flatten(a) + Flatten(b)
    decreases |b|
  {
    if b == [] {
      assert a + b == a;
    } else {
      var b', e := b[..|b| - 1], b[|b| - 1];
      FlattenAppend(a, b');
      SplitLast(a, b);
      FlattenSnoc(a + b', e);
      FlattenSnoc(b', e);
      Associative(Flatten(a), Flatten(b'), Pairs(e));
    }
  }

  lemma FlattenSnoc(d: Data, e: Entry<seq<int>>)
    ensures Flatten(d + [e]) == Flatten(d) + Pairs(e)
  {
    assert (d + [e])[..|d|] == d;
  }

  /** The flattened map around one entry. */
  lemma FlattenSplit(d: Data, o: nat)
    requires o < |d|
    ensures Flatten(d) == Flatten(d[..o]) + Pairs(d[o]) + Flatten(d[o + 1..])
  {
    assert d == d[..o + 1] + d[o + 1..];
    FlattenAppend(d[..o + 1], d[o + 1..]);
    FlattenPrefix(d, o);
  }

  /** One more entry of a prefix adds that entry's pairs. */
  lemma FlattenPrefix(d: Data, o: nat)
    requires o < |d|
    ensures Flatten(d[..o + 1]) == Flatten(d[..o]) + Pairs(d[o])
  {
    assert d[..o + 1][..o] == d[..o];
  }

  /** Every flattened pair carries a key of the map. */
  lemma {:induction false} FlattenKeys(d: Data)
    ensures forall j | 0 <= j < |Flatten(d)| :: Flatten(d)[j].0 in Keys(d)
  {
    if d != [] {
      var p := d[..|d| - 1];
      FlattenKeys(p);
      forall j | 0 <= j < |Flatten(d)| ensures Flatten(d)[j].0 in Keys(d) {
        if j < |Flatten(p)| {
          var i :| 0 <= i < |p| && p[i].key == Flatten(d)[j].0;
          assert d[i].key == p[i].key;
        } else {
          assert Flatten(d)[j].0 == d[|d| - 1].key;
        }
      }
    }
  }

  /** The pairs of one key lie side by side, just where that key's entry puts them. */
  lemma KeyOccurrences(d: Data, o: nat)
    requires Ordered(d) && o < |d|
    ensures var s := TotalSize(d[..o]);
      forall j | 0 <= j < TotalSize(d) ::
        Flatten(d)[j].0 == d[o].key <==> s <= j < s + |d[o].value|
    ensures var s := TotalSize(d[..o]);
      s + |d[o].value| <= TotalSize(d) && Flatten(d)[s..s + |d[o].value|] == Pairs(d[o])
  {
    FlattenSplit(d, o);
    KeysBefore(d, o);
    KeysAfter(d, o);
    ConcatParts(Flatten(d[..o]), Pairs(d[o]), Flatten(d[o + 1..]));
  }

  lemma KeysBefore(d: Data, o: nat)
    requires Ordered(d) && o < |d|
    ensures var f := Flatten(d[..o]);
      forall j | 0 <= j < |f| :: f[j].0 < d[o].key
  {
    var before := d[..o];
    FlattenKeys(before);
    forall j | 0 <= j < |Flatten(before)|
      ensures Flatten(before)[j].0 < d[o].key
    {
      var i :| 0 <= i < |before| && before[i].key == Flatten(before)[j].0;
      assert before[i] == d[i];
    }
  }

  lemma KeysAfter(d: Data, o: nat)
    requires Ordered(d) && o < |d|
    ensures var f := Flatten(d[o + 1..]);
      forall j | 0 <= j < |f| :: f[j].0 > d[o].key
  {
    var after := d[o + 1..];
    FlattenKeys(after);
    forall j | 0 <= j < |Flatten(after)|
      ensures Flatten(after)[j].0 > d[o].key
    {
      var i :| 0 <= i < |after| && after[i].key == Flatten(after)[j].0;
      assert after[i] == d[o + 1 + i];
    }
  }

  /** The keys of the flattened map never decrease. */
  lemma FlattenSorted(d: Data, i: nat, j: nat)
    requires Ordered(d) && i <= j < TotalSize(d)
    ensures Flatten(d)[i].0 <= Flatten(d)[j].0
  {
    FlattenKeys(d);
    var f := Flatten(d);
    var a :| 0 <= a < |d| && d[a].key == f[i].0;
    var b :| 0 <= b < |d| && d[b].key == f[j].0;
    KeyOccurrences(d, a);
    KeyOccurrences(d, b);
    EntriesInOrder(d, b, a);
  }

  /** The pairs of an earlier entry lie wholly before those of a later one. */
  lemma EntriesInOrder(d: Data, b: nat, a: nat)
    requires a < |d| && b < |d|
    ensures b < a ==> TotalSize(d[..b]) + |d[b].value| <= TotalSize(d[..a])
  {
    if b < a {
      TotalSizePrefix(d, b + 1, a);
      TotalSizeNext(d, b);
    }
  }

  lemma TotalSizeNext(d: Data, o: nat)
    requires o < |d|
    ensures TotalSize(d[..o + 1]) == TotalSize(d[..o]) + |d[o].value|
  {
    assert d[..o + 1][..o] == d[..o];
  }

  /** The size of a longer prefix is at least that of a shorter one, by the size of the gap. */
  lemma TotalSizePrefix(d: Data, i: nat, j: nat)
    requires i <= j <= |d|
    ensures TotalSize(d[..j]) == TotalSize(d[..i]) + TotalSize(d[i..j])
    ensures TotalSize(d[..i]) <= TotalSize(d[..j])
  {
    assert d[..j] == d[..i] + d[i..j];
    TotalSizeAppend(d[..i], d[i..j]);
  }

  /** An iterator position: entry index `outer`, index `inner` into that entry's container. */
  datatype Pos = Pos(outer: nat, inner: nat)

  /** `end()`: the outer cursor at the end; the inner cursor is of no account there. */
  function End(d: Data): (r: Pos)
    ensures r.outer == |d| && Offset(d, r) == TotalSize(d)
  {
    assert d[..|d|] == d;
    Pos(|d|, 0)
  }

  /** Where iterators are constructed: an inner cursor from `begin()` up to `end()` of its container. */
  ghost predicate InRange(d: Data, p: Pos) {
    p.outer <= |d| && (p.outer < |d| ==> p.inner <= |d[p.outer].value|)
  }

  /** A position that designates a pair, or the end. */
  ghost predicate Normalized(d: Data, p: Pos) {
    p.outer <= |d| && (p.outer < |d| ==> p.inner < |d[p.outer].value|)
  }

  /**
    `advance_to_next_valid`: while the inner cursor is exhausted, step to
    the next entry and to the beginning of its container.
   */
  function NextValid(d: Data, p: Pos): (r: Pos)
    requires InRange(d, p)
    ensures Normalized(d, r)
    ensures p.outer <= r.outer
    ensures r.outer == p.outer ==> r == p
    ensures r.outer > p.outer ==> p.inner == |d[p.outer].value|
    ensures r.outer > p.outer && r.outer < |d| ==> r.inner == 0
    ensures forall o | p.outer < o < r.outer :: d[o].value == []
    decreases |d| - p.outer
  {
    if p.outer < |d| && p.inner == |d[p.outer].value| then
      var o := p.outer + 1;
      NextValid(d, Pos(o, if o < |d| then 0 else p.inner))
    else
      p
  }

  /** `operator++`: step the inner cursor, then skip; the end stays the end. */
  function Successor(d: Data, p: Pos): (r: Pos)
    requires Normalized(d, p)
    ensures Normalized(d, r)
  {
    if p.outer < |d| then NextValid(d, Pos(p.outer, p.inner + 1)) else p
  }

  /**
    `operator==`: same entry, and the same inner cursor unless both are at
    the end. For two positions that designate a pair or the end, this is
    equality of the flattened indices.
   */
  predicate SameIterator(d: Data, p: Pos, q: Pos)
    ensures Normalized(d, p) && Normalized(d, q) ==>
      (SameIterator(d, p, q) <==> Offset(d, p) == Offset(d, q))
  {
    OffsetsOrdered(d, p, q);
    OffsetsOrdered(d, q, p);
    p.outer == q.outer && (p.outer == |d| || p.inner == q.inner)
  }

  /** The index into `Flatten(d)` of the pair a position designates; the end is `TotalSize(d)`. */
  function Offset(d: Data, p: Pos): nat
    requires p.outer <= |d|
  {
    TotalSize(d[..p.outer]) + if p.outer < |d| then p.inner else 0
  }

  /** Skipping exhausted and empty containers moves past no pair. */
  lemma {:induction false} NextValidOffset(d: Data, p: Pos)
    requires InRange(d, p)
    ensures Offset(d, NextValid(d, p)) == Offset(d, p)
    decreases |d| - p.outer
  {
    if p.outer < |d| && p.inner == |d[p.outer].value| {
      var o := p.outer + 1;
      var q := Pos(o, if o < |d| then 0 else p.inner);
      NextValidOffset(d, q);
      TotalSizeNext(d, p.outer);
    }
  }

  /** A position's offset is within the flattened map, and below its end unless it is the end. */
  lemma OffsetBound(d: Data, p: Pos)
    requires Normalized(d, p)
    ensures Offset(d, p) <= TotalSize(d)
    ensures Offset(d, p) == TotalSize(d) <==> p.outer == |d|
  {
    if p.outer < |d| {
      TotalSizeSplit(d, p.outer);
    } else {
      assert d[..p.outer] == d;
    }
  }

  /** `operator++` moves one pair forward, and leaves the end where it is. */
  lemma SuccessorOffset(d: Data, p: Pos)
    requires Normalized(d, p)
    ensures Offset(d, Successor(d, p)) == if p.outer < |d| then Offset(d, p) + 1 else Offset(d, p)
  {
    if p.outer < |d| {
      NextValidOffset(d, Pos(p.outer, p.inner + 1));
    }
  }

  /** A position in an earlier entry designates an earlier flattened index. */
  lemma OffsetsOrdered(d: Data, p: Pos, q: Pos)
    ensures Normalized(d, p) && Normalized(d, q) && p.outer < q.outer ==> Offset(d, p) < Offset(d, q)
  {
    if Normalized(d, p) && Normalized(d, q) && p.outer < q.outer {
      OffsetBelowNextEntry(d, p);
      TotalSizePrefix(d, p.outer + 1, q.outer);
    }
  }

  lemma OffsetBelowNextEntry(d: Data, p: Pos)
    requires Normalized(d, p) && p.outer < |d|
    ensures Offset(d, p) < TotalSize(d[..p.outer + 1])
  {
    TotalSizeNext(d, p.outer);
  }

  /** A position that is not the end designates its entry's key and the value under its inner cursor. */
  lemma DesignatedPair(d: Data, p: Pos)
    requires Normalized(d, p) && p.outer < |d|
    ensures Offset(d, p) < TotalSize(d)
    ensures Flatten(d)[Offset(d, p)] == (d[p.outer].key, d[p.outer].value[p.inner])
  {
    OffsetBound(d, p);
    FlattenSplit(d, p.outer);
    var x, y, z := Flatten(d[..p.outer]), Pairs(d[p.outer]), Flatten(d[p.outer + 1..]);
    assert Offset(d, p) == |x| + p.inner;
    assert (x + y + z)[|x| + p.inner] == y[p.inner];
  }

  /**
    The two ends of k's values, as `equal_range(k)` returns them: k's entry
    from its first value to past its last, normalized; the end twice when
    `k` is absent.
   */
  function KeyRange(d: Data, k: int): (r: (Pos, Pos))
    requires Ordered(d)
    ensures Normalized(d, r.0) && Normalized(d, r.1)
    ensures k !in Keys(d) ==> r.0 == End(d) && r.1 == End(d)
    ensures k in Keys(d) ==> Find(d, k) <= r.0.outer <= r.1.outer
  {
    var i := Find(d, k);
    if i == |d| then (End(d), End(d))
    else (NextValid(d, Pos(i, 0)), NextValid(d, Pos(i, |d[i].value|)))
  }

  /** Between the two ends of `KeyRange(d, k)` lie exactly the pairs with key `k`, in container order. */
  lemma KeyRangeSpec(d: Data, k: int)
    requires Ordered(d)
    ensures SpansKey(d, k, KeyRange(d, k).0, KeyRange(d, k).1)
  {
    var i := Find(d, k);
    if i == |d| {
      KeyRangeAbsent(d, k);
    } else {
      KeyRangePresent(d, i);
    }
  }

  /** `p` and `q` delimit the pairs with key `k`, which are k's values in container order. */
  ghost predicate SpansKey(d: Data, k: int, p: Pos, q: Pos)
    requires Ordered(d) && Normalized(d, p) && Normalized(d, q)
  {
    && SpansKeyAt(d, k, Offset(d, p), Offset(d, q))
    && (k !in Keys(d) ==> p.outer == |d| && q.outer == |d|)
  }

  /** The flattened indices from `a` up to `b` are exactly those of the pairs with key `k`. */
  ghost predicate SpansKeyAt(d: Data, k: int, a: nat, b: nat)
    requires Ordered(d)
  {
    && a <= b <= TotalSize(d)
    && Flatten(d)[a..b] == Pairs(Entry(k, Bucket(d, k)))
    && (forall j | 0 <= j < TotalSize(d) :: Flatten(d)[j].0 == k <==> a <= j < b)
  }

  lemma KeyRangeAbsent(d: Data, k: int)
    requires Ordered(d) && k !in Keys(d)
    ensures SpansKey(d, k, End(d), End(d))
  {
    FlattenKeys(d);
    OffsetBound(d, End(d));
  }

  lemma KeyRangePresent(d: Data, i: nat)
    requires Ordered(d) && i < |d|
    ensures SpansKey(d, d[i].key, NextValid(d, Pos(i, 0)), NextValid(d, Pos(i, |d[i].value|)))
  {
    KeyRangeOffsets(d, i);
    KeySpan(d, i);
  }

  lemma KeyRangeOffsets(d: Data, i: nat)
    requires i < |d|
    ensures Offset(d, NextValid(d, Pos(i, 0))) == TotalSize(d[..i])
    ensures Offset(d, NextValid(d, Pos(i, |d[i].value|))) == TotalSize(d[..i]) + |d[i].value|
  {
    NextValidOffset(d, Pos(i, 0));
    NextValidOffset(d, Pos(i, |d[i].value|));
  }

  lemma KeySpan(d: Data, i: nat)
    requires Ordered(d) && i < |d|
    ensures SpansKeyAt(d, d[i].key, TotalSize(d[..i]), TotalSize(d[..i]) + |d[i].value|)
  {
    KeyOccurrences(d, i);
    assert Entry(d[i].key, Bucket(d, d[i].key)) == d[i];
  }

  /** In a set container, the first occurrence of a value is its only one. */
  lemma FirstIndexUnique(c: seq<int>, j: nat)
    requires StrictlySorted(c) && j < |c|
    ensures FirstIndex(c, c[j]) == j
  {
  }

  lemma PairsWithout(k: int, c: seq<int>, j: nat)
    requires j < |c|
    ensures Pairs(Entry(k, c[..j] + c[j + 1..])) == Pairs(Entry(k, c))[..j] + Pairs(Entry(k, c))[j + 1..]
  {
  }

  /**
    `erase(pos)` once `pos.key()` and `pos.value()` are read: find the key,
    find the first equal value in its container and remove it; a container
    left empty takes its key with it. The position returned follows the
    removed value. When either search fails, nothing changes and the end is
    returned.
   */
  function ErasedAt(kind: Kind, d: Data, k: int, v: int): (r: (Data, Pos))
    requires Coherent(kind, d)
    ensures Coherent(kind, r.0)
    ensures Normalized(r.0, r.1)
  {
    var i := Find(d, k);
    if i == |d| then (d, End(d))
    else
      var c := d[i].value;
      var j := FirstIndex(c, v);
      if j == |c| then (d, End(d))
      else
        var c' := EraseOne(kind, c, v);
        if c' == [] then
          RemoveCoherent(kind, d, i);
          var d' := d[..i] + d[i + 1..];
          if i == |d'| then (d', End(d')) else (d', NextValid(d', Pos(i, 0)))
        else
          var d' := d[i := Entry(k, c')];
          assert forall o | 0 <= o < |d'| :: d'[o].key == d[o].key;
          (d', NextValid(d', Pos(i, j)))
  }

  /** `b` is `a` without the element at index `f`. */
  ghost predicate DropsOne<T>(a: seq<T>, b: seq<T>, f: nat) {
    f < |a| && b == a[..f] + a[f + 1..]
  }

  /**
    `erase(pos)` for a position of the current map: the flattened map loses
    exactly the first pair equal to the designated one (the designated pair
    itself when containers are sets), the returned position designates what
    followed it, and an emptied key disappears while every other key stays.
   */
  lemma ErasedAtEffect(kind: Kind, d: Data, p: Pos)
    requires Coherent(kind, d) && Normalized(d, p) && p.outer < |d|
    ensures ErasedAtSpec(kind, d, p)
  {
    var i := p.outer;
    var c := d[i].value;
    IndexOfKey(d, i, Find(d, d[i].key));
    if kind == Unique {
      FirstIndexUnique(c, p.inner);
    }
    DesignatedPair(d, Pos(i, FirstIndex(c, c[p.inner])));
    if |c| == 1 {
      ErasedWholeCase(kind, d, p);
    } else {
      ErasedInsideCase(kind, d, p);
    }
  }

  /** What `ErasedAtEffect` promises. */
  ghost predicate ErasedAtSpec(kind: Kind, d: Data, p: Pos)
    requires Coherent(kind, d) && Normalized(d, p) && p.outer < |d|
  {
    var k := d[p.outer].key;
    var c := d[p.outer].value;
    var r := ErasedAt(kind, d, k, c[p.inner]);
    var f := Offset(d, Pos(p.outer, FirstIndex(c, c[p.inner])));
    && Outcome(d, f, r, if |c| == 1 then Keys(d) - {k} else Keys(d))
    && (kind == Unique ==> f == Offset(d, p))
  }

  /**
    A removal of the pair at offset `f` that leaves `r`: the flattened map
    loses that pair, `r`'s position designates what followed it, and the
    keys become `keys`.
   */
  ghost predicate Outcome(d: Data, f: nat, r: (Data, Pos), keys: set<int>) {
    && DropsOne(Flatten(d), Flatten(r.0), f)
    && InRange(r.0, r.1)
    && Offset(r.0, r.1) == f
    && Keys(r.0) == keys
  }

  lemma ErasedWholeCase(kind: Kind, d: Data, p: Pos)
    requires Coherent(kind, d) && Normalized(d, p) && p.outer < |d|
    requires |d[p.outer].value| == 1
    requires Find(d, d[p.outer].key) == p.outer
    requires kind == Unique ==> FirstIndex(d[p.outer].value, d[p.outer].value[p.inner]) == p.inner
    ensures ErasedAtSpec(kind, d, p)
  {
    var i := p.outer;
    var k := d[i].key;
    var c := d[i].value;
    var v := c[p.inner];
    assert FirstIndex(c, v) == 0;
    assert EraseOne(kind, c, v) == [];
    ErasedAtRemove(kind, d, k, v, i, 0);
    EraseWholeEntry(d, i);
  }

  lemma ErasedInsideCase(kind: Kind, d: Data, p: Pos)
    requires Coherent(kind, d) && Normalized(d, p) && p.outer < |d|
    requires |d[p.outer].value| > 1
    requires Find(d, d[p.outer].key) == p.outer
    requires kind == Unique ==> FirstIndex(d[p.outer].value, d[p.outer].value[p.inner]) == p.inner
    ensures ErasedAtSpec(kind, d, p)
  {
    var i := p.outer;
    var c := d[i].value;
    var j := FirstIndex(c, c[p.inner]);
    ErasedInsideShape(kind, d, p);
    EraseInsideEntry(d, i, j);
  }

  lemma KeysReplace<V>(d: seq<Entry<V>>, i: nat, e: Entry<V>)
    requires i < |d| && e.key == d[i].key
    ensures Keys(d[i := e]) == Keys(d)
  {
    assert forall o | 0 <= o < |d| :: d[i := e][o].key == d[o].key;
  }

  lemma ErasedInsideShape(kind: Kind, d: Data, p: Pos)
    requires Coherent(kind, d) && Normalized(d, p) && p.outer < |d|
    requires |d[p.outer].value| > 1
    requires Find(d, d[p.outer].key) == p.outer
    ensures var c := d[p.outer].value;
      var j := FirstIndex(c, c[p.inner]);
      var d' := d[p.outer := Entry(d[p.outer].key, c[..j] + c[j + 1..])];
      ErasedAt(kind, d, d[p.outer].key, c[p.inner]) == (d', NextValid(d', Pos(p.outer, j)))
  {
    var i, k := p.outer, d[p.outer].key;
    var c, v := d[i].value, d[i].value[p.inner];
    var j := FirstIndex(c, v);
    assert v in c;
    var c' := c[..j] + c[j + 1..];
    assert |c'| == |c| - 1;
    ErasedAtReplace(kind, d, k, v, i, j, c');
  }

  /** When the key or the value is not found, `erase` changes nothing and returns the end. */
  lemma ErasedAtMiss(kind: Kind, d: Data, k: int, v: int)
    requires Coherent(kind, d)
    requires Find(d, k) < |d| ==> FirstIndex(d[Find(d, k)].value, v) == |d[Find(d, k)].value|
    ensures ErasedAt(kind, d, k, v) == (d, End(d))
  {
  }

  lemma ErasedAtRemove(kind: Kind, d: Data, k: int, v: int, i: nat, j: nat)
    requires Coherent(kind, d) && Find(d, k) == i < |d|
    requires j == FirstIndex(d[i].value, v) < |d[i].value|
    requires EraseOne(kind, d[i].value, v) == []
    ensures var d' := d[..i] + d[i + 1..];
      ErasedAt(kind, d, k, v) == (d', if i == |d'| then End(d') else NextValid(d', Pos(i, 0)))
  {
  }

  lemma ErasedAtReplace(kind: Kind, d: Data, k: int, v: int, i: nat, j: nat, c': seq<int>)
    requires Coherent(kind, d) && Find(d, k) == i < |d|
    requires j == FirstIndex(d[i].value, v) < |d[i].value|
    requires c' == EraseOne(kind, d[i].value, v) && |c'| + 1 == |d[i].value| > 1
    ensures var d' := d[i := Entry(k, c')];
      ErasedAt(kind, d, k, v) == (d', NextValid(d', Pos(i, j)))
  {
    assert c' != [];
  }

  /** Removing one value from a container that keeps others. */
  lemma EraseInsideEntry(d: Data, i: nat, j: nat)
    requires i < |d| && j < |d[i].value| && |d[i].value| > 1
    ensures var c := d[i].value;
      var d' := d[i := Entry(d[i].key, c[..j] + c[j + 1..])];
      Outcome(d, Offset(d, Pos(i, j)), (d', NextValid(d', Pos(i, j))), Keys(d))
  {
    var k, c := d[i].key, d[i].value;
    var d' := d[i := Entry(k, c[..j] + c[j + 1..])];
    EraseInsideFlatten(d, i, j);
    NextValidOffset(d', Pos(i, j));
    assert d'[..i] == d[..i];
    KeysReplace(d, i, Entry(k, c[..j] + c[j + 1..]));
  }

  lemma EraseInsideFlatten(d: Data, i: nat, j: nat)
    requires i < |d| && j < |d[i].value|
    ensures var c := d[i].value;
      DropsOne(Flatten(d), Flatten(d[i := Entry(d[i].key, c[..j] + c[j + 1..])]), TotalSize(d[..i]) + j)
  {
    var k, c := d[i].key, d[i].value;
    var x, y, z := Flatten(d[..i]), Pairs(d[i]), Flatten(d[i + 1..]);
    FlattenSplit(d, i);
    FlattenReplace(d, i, Entry(k, c[..j] + c[j + 1..]));
    PairsWithout(k, c, j);
    DropAt(x, y, z, j);
  }

  lemma FlattenReplace(d: Data, i: nat, e: Entry<seq<int>>)
    requires i < |d|
    ensures Flatten(d[i := e]) == Flatten(d[..i]) + Pairs(e) + Flatten(d[i + 1..])
  {
    var d' := d[i := e];
    FlattenSplit(d', i);
    assert d'[..i] == d[..i] && d'[i + 1..] == d[i + 1..];
  }

  /** Removing the only value of a container, and the container's key with it. */
  lemma EraseWholeEntry(d: Data, i: nat)
    requires Ordered(d) && i < |d| && |d[i].value| == 1
    ensures var d' := d[..i] + d[i + 1..];
      var q := if i == |d'| then End(d') else NextValid(d', Pos(i, 0));
      Outcome(d, Offset(d, Pos(i, 0)), (d', q), Keys(d) - {d[i].key})
  {
    var d' := d[..i] + d[i + 1..];
    EraseWholeFlatten(d, i);
    EraseWholeOffset(d, i);
    RemoveAt(d, i);
  }

  lemma EraseWholeFlatten(d: Data, i: nat)
    requires i < |d| && |d[i].value| == 1
    ensures DropsOne(Flatten(d), Flatten(d[..i] + d[i + 1..]), TotalSize(d[..i]))
  {
    FlattenSplit(d, i);
    FlattenAppend(d[..i], d[i + 1..]);
    DropSingle(Flatten(d[..i]), Pairs(d[i]), Flatten(d[i + 1..]));
  }

  lemma EraseWholeOffset(d: Data, i: nat)
    requires i < |d|
    ensures var d' := d[..i] + d[i + 1..];
      var q := if i == |d'| then End(d') else NextValid(d', Pos(i, 0));
      Offset(d', q) == TotalSize(d[..i])
  {
    var d' := d[..i] + d[i + 1..];
    assert d'[..i] == d[..i];
    if i == |d'| {
      assert d'[..|d'|] == d';
      TotalSizeAppend(d[..i], d[i + 1..]);
    } else {
      NextValidOffset(d', Pos(i, 0));
    }
  }
}
