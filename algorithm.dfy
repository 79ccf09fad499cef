/**
  The dictionary algorithms: each is one loop over an ordered dictionary
  that emplaces into, or assigns through, another dictionary. Callbacks are
  pure functions passed as parameters.
 */
module Algorithm {
  import opened Wrappers
  import opened OrderedDict
  import opened Containers
  import opened Buckets
  import opened MultiDict

  /** The keys of `inputs` that map to `v`, in the inputs' key order. */
  function KeysWithValue(inputs: seq<Entry<int>>, v: int): (r: seq<int>)
    ensures |r| <= |inputs|
  {
    if inputs == [] then []
    else
      var last := inputs[|inputs| - 1];
      KeysWithValue(inputs[..|inputs| - 1], v) + if last.value == v then [last.key] else []
  }

  /** `KeysWithValue` holds exactly the keys of the entries whose value is `v`. */
  lemma {:induction false} KeysWithValueMembers(inputs: seq<Entry<int>>, v: int)
    ensures forall x :: x in KeysWithValue(inputs, v) <==>
      exists i | 0 <= i < |inputs| :: inputs[i] == Entry(x, v)
  {
    if inputs != [] {
      var p := inputs[..|inputs| - 1];
      KeysWithValueMembers(p, v);
      forall x | x in KeysWithValue(inputs, v)
        ensures exists i | 0 <= i < |inputs| :: inputs[i] == Entry(x, v)
      {
        if x in KeysWithValue(p, v) {
          var i :| 0 <= i < |p| && p[i] == Entry(x, v);
          assert inputs[i] == Entry(x, v);
        } else {
          assert inputs[|inputs| - 1] == Entry(x, v);
        }
      }
      forall x | exists i | 0 <= i < |inputs| :: inputs[i] == Entry(x, v)
        ensures x in KeysWithValue(inputs, v)
      {
        var i :| 0 <= i < |inputs| && inputs[i] == Entry(x, v);
        if i < |p| {
          assert p[i] == Entry(x, v);
        }
      }
    }
  }

  /** Over an ordered input, each group comes out in ascending key order, without repeats. */
  lemma {:induction false} KeysWithValueSorted(inputs: seq<Entry<int>>, v: int)
    requires Ordered(inputs)
    ensures StrictlySorted(KeysWithValue(inputs, v))
  {
    if inputs != [] {
      var p := inputs[..|inputs| - 1];
      var last := inputs[|inputs| - 1];
      KeysWithValueSorted(p, v);
      KeysWithValueMembers(p, v);
      var r := KeysWithValue(p, v);
      if last.value == v {
        var s := r + [last.key];
        forall a, b | 0 <= a < b < |s| ensures s[a] < s[b] {
          if b < |r| {
            assert s[a] == r[a] && s[b] == r[b];
          } else {
            assert s[a] == r[a] && r[a] in r;
            var i :| 0 <= i < |p| && p[i] == Entry(r[a], v);
            assert inputs[i] == p[i];
          }
        }
      }
    }
  }

  /** `d` groups the keys of `inputs` by value, with no empty group. */
  ghost predicate Groups(d: Data, inputs: seq<Entry<int>>) {
    && Ordered(d)
    && (forall v :: Bucket(d, v) == KeysWithValue(inputs, v))
    && (forall v | v in Keys(d) :: Bucket(d, v) != [])
    && TotalSize(d) == |inputs|
  }

  /** The state `reverse` builds: `(value, key)` emplaced for each input entry, in key order. */
  function Grouped(inputs: seq<Entry<int>>): (r: Data)
    ensures Coherent(Sequence, r)
  {
    if inputs == [] then []
    else
      var last := inputs[|inputs| - 1];
      Emplaced(Sequence, Grouped(inputs[..|inputs| - 1]), last.value, last.key)
  }

  lemma GroupedStep(inputs: seq<Entry<int>>, i: nat)
    requires i < |inputs|
    ensures Grouped(inputs[..i + 1]) == Emplaced(Sequence, Grouped(inputs[..i]), inputs[i].value, inputs[i].key)
  {
    assert inputs[..i + 1][..i] == inputs[..i];
  }

  /** Emplacing the inputs one by one groups their keys by value. */
  lemma {:induction false} GroupedGroups(inputs: seq<Entry<int>>)
    ensures Groups(Grouped(inputs), inputs)
  {
    if inputs != [] {
      var n := |inputs| - 1;
      GroupedGroups(inputs[..n]);
      GroupsStep(Grouped(inputs[..n]), inputs, n);
      assert inputs[..n + 1] == inputs;
    }
  }

  /** Emplacing `(value, key)` for the next input entry extends the grouping by that entry. */
  lemma GroupsStep(d: Data, inputs: seq<Entry<int>>, i: nat)
    requires i < |inputs| && Coherent(Sequence, d) && Groups(d, inputs[..i])
    ensures Groups(Emplaced(Sequence, d, inputs[i].value, inputs[i].key), inputs[..i + 1])
  {
    var e := inputs[i];
    var d' := Emplaced(Sequence, d, e.value, e.key);
    EmplaceSequence(d, e.value, e.key);
    KeysWithValueStep(inputs, i);
    forall v ensures Bucket(d', v) == KeysWithValue(inputs[..i + 1], v) {
      GroupStep(d, inputs, i, v);
    }
    forall v | v in Keys(d') ensures Bucket(d', v) != [] {
      if v != e.value {
        assert v in Keys(d);
      }
    }
  }

  lemma GroupStep(d: Data, inputs: seq<Entry<int>>, i: nat, v: int)
    requires i < |inputs| && Coherent(Sequence, d)
    requires Bucket(d, v) == KeysWithValue(inputs[..i], v)
    ensures Bucket(Emplaced(Sequence, d, inputs[i].value, inputs[i].key), v) == KeysWithValue(inputs[..i + 1], v)
  {
    EmplaceSequence(d, inputs[i].value, inputs[i].key);
    KeysWithValueStep(inputs, i);
  }

  lemma KeysWithValueStep(inputs: seq<Entry<int>>, i: nat)
    requires i < |inputs|
    ensures forall v ::
      KeysWithValue(inputs[..i + 1], v) == KeysWithValue(inputs[..i], v) + (if inputs[i].value == v then [inputs[i].key] else [])
  {
    assert inputs[..i + 1][..i] == inputs[..i];
  }

  /**
    `reverse(inputs)`: group the input keys by value. Each value's group
    lists exactly the keys mapped to it, in key order; no group is empty.
   */
  method Reverse(inputs: seq<Entry<int>>) returns (out: Data)
    requires Ordered(inputs)
    ensures out == Grouped(inputs)
    ensures Ordered(out)
    ensures forall v :: Bucket(out, v) == KeysWithValue(inputs, v)
    ensures forall i | 0 <= i < |out| :: out[i].value != []
    ensures TotalSize(out) == |inputs|
    ensures inputs == [] ==> out == []
  {
    var res := new MultiMap(Sequence);
    var i := 0;
    while i < |inputs|
      invariant 0 <= i <= |inputs|
      invariant res.Valid() && res.kind == Sequence
      invariant res.data == Grouped(inputs[..i])
    {
      GroupedStep(inputs, i);
      var _, _ := res.Place(inputs[i].value, inputs[i].key);
      i := i + 1;
    }
    out := res.data;
    assert inputs[..|inputs|] == inputs;
    GroupedGroups(inputs);
    GroupsNonEmpty(out, inputs);
  }

  lemma GroupsNonEmpty(d: Data, inputs: seq<Entry<int>>)
    requires Groups(d, inputs)
    ensures forall i | 0 <= i < |d| :: d[i].value != []
  {
    forall o | 0 <= o < |d| ensures d[o].value != [] {
      assert d[o].key in Keys(d);
    }
  }

  /**
    `transform(inputs, func)`: a new dictionary with the same keys, each
    value replaced by `func(key, value)`.
   */
  method TransformNew<IV, OV>(inputs: seq<Entry<IV>>, func: (int, IV) -> OV) returns (out: seq<Entry<OV>>)
    requires Ordered(inputs)
    ensures Ordered(out) && |out| == |inputs|
    ensures forall i | 0 <= i < |out| :: out[i] == Entry(inputs[i].key, func(inputs[i].key, inputs[i].value))
    ensures Keys(out) == Keys(inputs)
  {
    out := [];
    var i := 0;
    while i < |inputs|
      invariant 0 <= i <= |inputs|
      invariant Ordered(out) && |out| == i
      invariant forall j | 0 <= j < i :: out[j] == Entry(inputs[j].key, func(inputs[j].key, inputs[j].value))
    {
      var e := inputs[i];
      InsertGreatest(out, e.key, func(e.key, e.value));
      out := Insert(out, e.key, func(e.key, e.value));
      i := i + 1;
    }
    SameKeys(out, inputs);
  }

  lemma SameKeys<A, B>(a: seq<Entry<A>>, b: seq<Entry<B>>)
    requires |a| == |b| && forall i | 0 <= i < |a| :: a[i].key == b[i].key
    ensures Keys(a) == Keys(b)
  {
    forall x | x in Keys(a) ensures x in Keys(b) {
      var i :| 0 <= i < |a| && a[i].key == x;
      assert b[i].key == x;
    }
    forall x | x in Keys(b) ensures x in Keys(a) {
      var i :| 0 <= i < |b| && b[i].key == x;
      assert a[i].key == x;
    }
  }

  /**
    `transform(inputs, func)` in place: every entry, in key order, is
    reassigned `func(key, value)`; the keys stay as they were.
   */
  method TransformInPlace<V>(inputs: Dict<V>, func: (int, V) -> V)
    requires inputs.Valid()
    modifies inputs
    ensures inputs.Valid() && |inputs.entries| == |old(inputs.entries)|
    ensures forall i | 0 <= i < |inputs.entries| ::
      inputs.entries[i] == Entry(old(inputs.entries)[i].key, func(old(inputs.entries)[i].key, old(inputs.entries)[i].value))
    ensures Keys(inputs.entries) == Keys(old(inputs.entries))
  {
    var i := 0;
    while i < |inputs.entries|
      invariant 0 <= i <= |inputs.entries| == |old(inputs.entries)|
      invariant inputs.Valid()
      invariant forall j | 0 <= j < i ::
        inputs.entries[j] == Entry(old(inputs.entries)[j].key, func(old(inputs.entries)[j].key, old(inputs.entries)[j].value))
      invariant forall j | i <= j < |inputs.entries| :: inputs.entries[j] == old(inputs.entries)[j]
    {
      var e := inputs.entries[i];
      AssignAt(inputs.entries, i, func(e.key, e.value));
      inputs.entries := Assign(inputs.entries, e.key, func(e.key, e.value));
      i := i + 1;
    }
    SameKeys(inputs.entries, old(inputs.entries));
  }

  /** `new_by_set(inputs, func)`: each element of the set, ascending, becomes a key mapped to `func(element)`. */
  method NewBySet<V>(inputs: seq<int>, func: int -> V) returns (out: seq<Entry<V>>)
    requires StrictlySorted(inputs)
    ensures Ordered(out) && |out| == |inputs|
    ensures forall i | 0 <= i < |out| :: out[i] == Entry(inputs[i], func(inputs[i]))
    ensures forall k :: k in Keys(out) <==> k in inputs
  {
    out := [];
    var i := 0;
    while i < |inputs|
      invariant 0 <= i <= |inputs|
      invariant Ordered(out) && |out| == i
      invariant forall j | 0 <= j < i :: out[j] == Entry(inputs[j], func(inputs[j]))
    {
      InsertGreatest(out, inputs[i], func(inputs[i]));
      out := Insert(out, inputs[i], func(inputs[i]));
      i := i + 1;
    }
    forall k | k in inputs ensures k in Keys(out) {
      var i :| 0 <= i < |inputs| && inputs[i] == k;
      assert out[i].key == k;
    }
  }

  /**
    `values_of(in)`: the values in key order, collected into a container of
    the given kind; a vector keeps every one, a set keeps them once each.
   */
  method ValuesOf(kind: Kind, d: seq<Entry<int>>) returns (res: seq<int>)
    ensures WellFormed(kind, res)
    ensures kind == Sequence ==> |res| == |d| && forall i | 0 <= i < |d| :: res[i] == d[i].value
    ensures forall x :: x in res <==> exists i | 0 <= i < |d| :: d[i].value == x
  {
    res := [];
    var i := 0;
    while i < |d|
      invariant 0 <= i <= |d|
      invariant WellFormed(kind, res)
      invariant kind == Sequence ==> |res| == i && forall j | 0 <= j < i :: res[j] == d[j].value
      invariant forall x :: x in res <==> exists j | 0 <= j < i :: d[j].value == x
    {
      res := Add(kind, res, d[i].value);
      i := i + 1;
    }
  }

  /**
    `update(dict, key, value, func)`: an absent key is inserted with `value`;
    a present one is reassigned `func(key, old, value)`. Returns the index of
    the key's entry.
   */
  method Update<V>(dict: Dict<V>, key: int, value: V, func: (int, V, V) -> V) returns (pos: nat)
    requires dict.Valid()
    modifies dict
    ensures dict.Valid()
    ensures pos < |dict.entries| && dict.entries[pos].key == key
    ensures Keys(dict.entries) == Keys(old(dict.entries)) + {key}
    ensures key !in Keys(old(dict.entries)) ==>
      |dict.entries| == |old(dict.entries)| + 1 && Lookup(dict.entries, key) == Some(value)
    ensures key in Keys(old(dict.entries)) ==>
      |dict.entries| == |old(dict.entries)| &&
      Lookup(dict.entries, key) == Some(func(key, Lookup(old(dict.entries), key).value, value))
    ensures forall k' | k' != key :: Lookup(dict.entries, k') == Lookup(old(dict.entries), k')
  {
    var i := Find(dict.entries, key);
    if i == |dict.entries| {
      dict.entries := Insert(dict.entries, key, value);
      i := Find(dict.entries, key);
    } else {
      var newElem := func(key, dict.entries[i].value, value);
      ReplaceAt(dict.entries, i, newElem);
      dict.entries := dict.entries[i := Entry(key, newElem)];
    }
    pos := i;
  }
}
