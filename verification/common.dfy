/** Small shared datatypes. */
module Common {

  /** A value that may be absent: Python's `None` versus a present value. */
  datatype Option<+T> = None | Some(value: T) {

    /** The present value, or `default` when absent. */
    function GetOr(default: T): T {
      match this
      case Some(v) => v
      case None => default
    }
  }

  /** No element of `xs` occurs twice. */
  predicate NoDuplicates<T(==)>(xs: seq<T>) {
    forall i, j :: 0 <= i < j < |xs| ==> xs[i] != xs[j]
  }

  /** A list of the elements of a set, each once, is as long as the set. */
  lemma {:induction false} ListingSize<T>(xs: seq<T>, s: set<T>)
    requires NoDuplicates(xs) && forall x :: x in xs <==> x in s
    ensures |xs| == |s|
  {
    if xs != [] {
      var rest := xs[1..];
      forall i, j | 0 <= i < j < |rest| ensures rest[i] != rest[j] {
        assert rest[i] == xs[i + 1] && rest[j] == xs[j + 1];
      }
      forall x ensures x in rest <==> x in s - {xs[0]} {
        if x in rest {
          var k :| 0 <= k < |rest| && rest[k] == x;
          assert xs[k + 1] == x;
        }
        if x in xs && x != xs[0] {
          var k :| 0 <= k < |xs| && xs[k] == x;
          assert rest[k - 1] == x;
        }
      }
      ListingSize(rest, s - {xs[0]});
    }
  }

  /** `seq` of `xs` with duplicates removed, keeping the first occurrence of each element. */
  function Dedup<T(==,!new)>(xs: seq<T>): (r: seq<T>)
    ensures forall x :: x in r <==> x in xs
    ensures forall i, j :: 0 <= i < j < |r| ==> r[i] != r[j]
    ensures |r| <= |xs|
  {
    if xs == [] then []
    else
      var rest := Dedup(xs[..|xs| - 1]);
      if xs[|xs| - 1] in rest then rest else rest + [xs[|xs| - 1]]
  }

  /** Concatenation regroups. */
  lemma AppendAssoc<T>(a: seq<T>, b: seq<T>, c: seq<T>)
    ensures a + (b + c) == (a + b) + c
  {
  }

  /** A non-empty sequence is its first element followed by the rest. */
  lemma HeadTail<T>(s: seq<T>)
    requires s != []
    ensures s == [s[0]] + s[1..]
  {
  }

  /** A non-empty prefix is its first element followed by the rest. */
  lemma ConsAppend<T>(a: seq<T>, r: seq<T>)
    requires a != []
    ensures a + r == [a[0]] + (a[1..] + r)
  {
    assert a == [a[0]] + a[1..];
    AppendAssoc([a[0]], a[1..], r);
  }

  /** A prefix of a suffix is a slice. */
  lemma ConsTail<T>(x: T, r: seq<T>)
    ensures ([x] + r)[1..] == r
  {
  }

  lemma SliceOfSuffix<T>(s: seq<T>, a: nat, w: nat)
    requires a + w <= |s|
    ensures s[a..][..w] == s[a..a + w]
  {
  }

  /** Slices that end inside the first part of a concatenation are slices
      of that part, and a suffix from inside it keeps the second part. */
  lemma AppendSlices<T>(x: seq<T>, z: seq<T>, i: nat, j: nat)
    requires i <= j <= |x|
    ensures (x + z)[i..j] == x[i..j]
    ensures (x + z)[j..] == x[j..] + z
  {
  }
}
