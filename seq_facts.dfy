/**
  Facts about sequences that the dictionary proofs use, stated once over an
  arbitrary element type.
 */
module SeqFacts {

  lemma Associative<T>(x: seq<T>, y: seq<T>, z: seq<T>)
    ensures (x + y) + z == x + (y + z)
  {
  }

  /** A non-empty sequence is its front followed by its last element, also behind a prefix. */
  lemma SplitLast<T>(a: seq<T>, b: seq<T>)
    requires b != []
    ensures b == b[..|b| - 1] + [b[|b| - 1]]
    ensures a + b == (a + b[..|b| - 1]) + [b[|b| - 1]]
  {
  }

  /** Dropping the element at index `|x| + j` of `x + y + z` drops index `j` of `y`. */
  lemma DropAt<T>(x: seq<T>, y: seq<T>, z: seq<T>, j: nat)
    requires j < |y|
    ensures (x + y + z)[..|x| + j] + (x + y + z)[|x| + j + 1..] == x + (y[..j] + y[j + 1..]) + z
  {
    var s := x + y + z;
    assert s[..|x| + j] == x + y[..j];
    assert s[|x| + j + 1..] == y[j + 1..] + z;
  }

  /** Where the elements of `d` land when `x` is inserted at index `i`. */
  lemma InsertIndices<T>(d: seq<T>, i: nat, x: T)
    requires i <= |d|
    ensures var r := d[..i] + [x] + d[i..];
      && |r| == |d| + 1 && r[i] == x
      && (forall j | 0 <= j < i :: r[j] == d[j])
      && (forall j | i < j < |r| :: r[j] == d[j - 1])
  {
  }

  /** Where the elements of `d` land when index `i` is removed. */
  lemma RemoveIndices<T>(d: seq<T>, i: nat)
    requires i < |d|
    ensures var r := d[..i] + d[i + 1..];
      && |r| == |d| - 1
      && (forall j | 0 <= j < i :: r[j] == d[j])
      && (forall j | i <= j < |r| :: r[j] == d[j + 1])
  {
  }

  /** A non-empty sequence is its first element followed by its tail, also behind a prefix. */
  lemma SplitFirst<T>(a: seq<T>, b: seq<T>)
    requires b != []
    ensures (a + [b[0]]) + b[1..] == a + b
  {
  }

  /** Dropping index `i + 1` of `c` is keeping `c[0]` and dropping index `i` of the tail. */
  lemma DropInTail<T>(c: seq<T>, i: nat)
    requires i + 1 < |c|
    ensures [c[0]] + (c[1..][..i] + c[1..][i + 1..]) == c[..i + 1] + c[i + 2..]
  {
    assert c[..i + 1] == [c[0]] + c[1..][..i];
    assert c[i + 2..] == c[1..][i + 1..];
  }

  /** A slice grows by one element at its end. */
  lemma SliceExtend<T>(s: seq<T>, a: nat, b: nat)
    requires a <= b < |s|
    ensures s[a..b + 1] == s[a..b] + [s[b]]
  {
  }

  /** Dropping the single element of `y` from `x + y + z` leaves `x + z`. */
  lemma DropSingle<T>(x: seq<T>, y: seq<T>, z: seq<T>)
    requires |y| == 1
    ensures (x + y + z)[..|x|] + (x + y + z)[|x| + 1..] == x + z
  {
    var s := x + y + z;
    assert s[..|x|] == x;
    assert s[|x| + 1..] == z;
  }

  /** Where the parts of `x + y + z` sit. */
  lemma ConcatParts<T>(x: seq<T>, y: seq<T>, z: seq<T>)
    ensures var s := x + y + z;
      && s[|x|..|x| + |y|] == y
      && (forall j | 0 <= j < |x| :: s[j] == x[j])
      && (forall j | |x| <= j < |x| + |y| :: s[j] == y[j - |x|])
      && (forall j | |x| + |y| <= j < |s| :: s[j] == z[j - |x| - |y|])
  {
  }
}
