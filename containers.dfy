/**
  The per-key value container and the capability dispatch that adds to it.
  A `std::vector<int>` is a plain sequence (append keeps order and
  duplicates); a `std::set<int>` is a strictly ascending sequence, the order
  in which the set iterates.
 */
module Containers {
  import opened SeqFacts

  /** The two capabilities: `emplace_back` (vector) and `emplace` (set). */
  datatype Kind = Sequence | Unique

  ghost predicate StrictlySorted(c: seq<int>) {
    forall i, j | 0 <= i < j < |c| :: c[i] < c[j]
  }

  /** A set container holds its values ascending and without repetition. */
  ghost predicate WellFormed(kind: Kind, c: seq<int>) {
    kind == Unique ==> StrictlySorted(c)
  }

  /** The number of values of a sorted container that lie below `v`. */
  function Rank(c: seq<int>, v: int): (i: nat)
    requires StrictlySorted(c)
    ensures i <= |c|
    ensures forall j | 0 <= j < i :: c[j] < v
    ensures forall j | i <= j < |c| :: v <= c[j]
  {
    if c == [] || v <= c[0] then 0 else 1 + Rank(c[1..], v)
  }

  /** `std::set::emplace`: `v` goes to its sorted place, unless it is already there. */
  function InsertUnique(c: seq<int>, v: int): (r: seq<int>)
    requires StrictlySorted(c)
    ensures StrictlySorted(r)
    ensures forall x :: x in r <==> x in c || x == v
    ensures |r| == if v in c then |c| else |c| + 1
  {
    var i := Rank(c, v);
    if i < |c| && c[i] == v then
      c
    else
      InsertSortedAt(c, i, v);
      c[..i] + [v] + c[i..]
  }

  /** Placing `v` at its rank, when it is not already there, keeps the container sorted. */
  lemma InsertSortedAt(c: seq<int>, i: nat, v: int)
    requires StrictlySorted(c) && i == Rank(c, v) && !(i < |c| && c[i] == v)
    ensures var r := c[..i] + [v] + c[i..];
      && StrictlySorted(r)
      && (forall x :: x in r <==> x in c || x == v)
      && v !in c
  {
    var r := c[..i] + [v] + c[i..];
    InsertIndices(c, i, v);
    assert StrictlySorted(r);
    forall x | x in r ensures x in c || x == v {
      var j :| 0 <= j < |r| && r[j] == x;
      if j < i { assert c[j] == x; } else if j > i { assert c[j - 1] == x; }
    }
    forall x | x in c ensures x in r {
      var j :| 0 <= j < |c| && c[j] == x;
      if j < i { assert r[j] == x; } else { assert r[j + 1] == x; }
    }
  }

  /** `container_emplace`: append for a vector, unique insertion for a set. */
  function Add(kind: Kind, c: seq<int>, v: int): (r: seq<int>)
    requires WellFormed(kind, c)
    ensures WellFormed(kind, r)
    ensures v in r
    ensures kind == Sequence ==> |r| == |c| + 1 && r[..|c|] == c && r[|c|] == v
    ensures kind == Unique ==> (forall x :: x in r <==> x in c || x == v)
    ensures kind == Unique ==> |r| == if v in c then |c| else |c| + 1
  {
    match kind
    case Sequence => c + [v]
    case Unique => InsertUnique(c, v)
  }

  /** Adding the values of `vs` one at a time, in order. */
  function AddEach(kind: Kind, c: seq<int>, vs: seq<int>): (r: seq<int>)
    requires WellFormed(kind, c)
    ensures WellFormed(kind, r)
    ensures forall x :: x in r <==> x in c || x in vs
    decreases |vs|
  {
    if vs == [] then c else AddEach(kind, Add(kind, c, vs[0]), vs[1..])
  }

  /**
    The range insertion of `insert(key, first, last)`: a vector inserts the
    whole range at its end, a set inserts every element of the range.
   */
  function AddAll(kind: Kind, c: seq<int>, vs: seq<int>): (r: seq<int>)
    requires WellFormed(kind, c)
    ensures WellFormed(kind, r)
  {
    match kind
    case Sequence => c + vs
    case Unique => AddEach(Unique, c, vs)
  }

  /** Both range insertions agree with adding the range's values one by one. */
  lemma {:induction false} AddAllIsRepeatedAdd(kind: Kind, c: seq<int>, vs: seq<int>)
    requires WellFormed(kind, c)
    ensures AddAll(kind, c, vs) == AddEach(kind, c, vs)
    decreases |vs|
  {
    if kind == Sequence && vs != [] {
      AddAllIsRepeatedAdd(kind, c + [vs[0]], vs[1..]);
      SplitFirst(c, vs);
    }
  }

  /** `std::find`: the index of the first occurrence of `v`, or `|c|` when there is none. */
  function FirstIndex(c: seq<int>, v: int): (i: nat)
    ensures i <= |c|
    ensures i < |c| ==> c[i] == v
    ensures forall j | 0 <= j < i :: c[j] != v
    ensures i == |c| <==> v !in c
  {
    if c == [] then 0 else if c[0] == v then 0 else 1 + FirstIndex(c[1..], v)
  }

  /** `std::set::erase(value)`: every copy of `v` goes. */
  function Without(c: seq<int>, v: int): (r: seq<int>)
    ensures forall x :: x in r <==> x in c && x != v
    ensures v !in c ==> r == c
    ensures |r| <= |c|
  {
    if c == [] then [] else (if c[0] == v then [] else [c[0]]) + Without(c[1..], v)
  }

  /** Removing the value at one position keeps a sorted container sorted. */
  lemma RemoveAtSorted(c: seq<int>, i: nat)
    requires StrictlySorted(c) && i < |c|
    ensures StrictlySorted(c[..i] + c[i + 1..])
  {
    var r := c[..i] + c[i + 1..];
    assert forall j | 0 <= j < i :: r[j] == c[j];
    assert forall j | i <= j < |r| :: r[j] == c[j + 1];
  }

  lemma RemoveAtMultiset(c: seq<int>, i: nat)
    requires i < |c|
    ensures multiset(c[..i] + c[i + 1..]) == multiset(c) - multiset{c[i]}
  {
    assert c == c[..i] + [c[i]] + c[i + 1..];
  }

  /** On a sorted container, removing every copy is removing the first one. */
  lemma {:induction false} WithoutSorted(c: seq<int>, v: int)
    requires StrictlySorted(c)
    requires v in c
    ensures Without(c, v) == c[..FirstIndex(c, v)] + c[FirstIndex(c, v) + 1..]
  {
    if c[0] == v {
      assert Without(c[1..], v) == c[1..];
    } else {
      WithoutSorted(c[1..], v);
      var i := FirstIndex(c[1..], v);
      assert FirstIndex(c, v) == i + 1;
      DropInTail(c, i);
    }
  }

  /**
    `erase(key, value)` on one container: a vector loses the first
    occurrence of `v`, a set loses `v`; without `v` nothing changes.
   */
  function EraseOne(kind: Kind, c: seq<int>, v: int): (r: seq<int>)
    requires WellFormed(kind, c)
    ensures WellFormed(kind, r)
    ensures v !in c ==> r == c
    ensures v in c ==> r == c[..FirstIndex(c, v)] + c[FirstIndex(c, v) + 1..]
    ensures v in c ==> multiset(r) == multiset(c) - multiset{v}
  {
    match kind
    case Sequence =>
      var i := FirstIndex(c, v);
      if i < |c| then
        RemoveAtMultiset(c, i);
        c[..i] + c[i + 1..]
      else
        c
    case Unique =>
      if v in c then
        RemoveAtMultiset(c, FirstIndex(c, v));
        RemoveAtSorted(c, FirstIndex(c, v));
        WithoutSorted(c, v);
        Without(c, v)
      else
        Without(c, v)
  }
}
