/** Facts about sequences that several tables and buffers share. */
module Sequences {

  function AtMost(a: nat, b: nat): nat {
    if a <= b then a else b
  }

  function Repeat<T>(x: T, n: nat): (r: seq<T>)
    ensures |r| == n && forall i :: 0 <= i < n ==> r[i] == x
  {
    seq(n, _ => x)
  }

  /** The sequence filled up to n elements. */
  function Padded<T>(s: seq<T>, n: nat, x: T): (r: seq<T>)
    requires |s| <= n
    ensures |r| == n
  {
    s + Repeat(x, n - |s|)
  }

  /** The index of the first element with a property, or the length of the sequence. */
  function FirstWhere<T>(s: seq<T>, p: T -> bool): (i: nat)
    ensures i <= |s|
    ensures forall j :: 0 <= j < i ==> !p(s[j])
    ensures i < |s| ==> p(s[i])
  {
    if s == [] || p(s[0]) then 0 else FirstWhere(s[1..], p) + 1
  }

  /** The sequences one after the other. */
  function Concat<T>(parts: seq<seq<T>>): seq<T> {
    if parts == [] then [] else Concat(parts[..|parts| - 1]) + parts[|parts| - 1]
  }

  lemma ConcatSnoc<T>(parts: seq<seq<T>>, part: seq<T>)
    ensures Concat(parts + [part]) == Concat(parts) + part
  {
    assert (parts + [part])[..|parts|] == parts;
  }

  lemma Multiples(k: nat, n: nat, size: nat)
    requires k < n
    ensures 0 <= k * size && (k + 1) * size == k * size + size <= n * size
  {
  }

  ghost predicate AllOfSize<T>(parts: seq<seq<T>>, size: nat) {
    forall k :: 0 <= k < |parts| ==> |parts[k]| == size
  }

  lemma {:induction false} ConcatSize<T>(parts: seq<seq<T>>, size: nat)
    requires AllOfSize(parts, size)
    ensures |Concat(parts)| == |parts| * size
    decreases |parts|
  {
    if parts != [] {
      ConcatSize(parts[..|parts| - 1], size);
      Multiples(|parts| - 1, |parts|, size);
    }
  }

  /** Parts of the same size are found at the multiples of the size. */
  lemma {:induction false} PartOf<T>(parts: seq<seq<T>>, size: nat, k: nat)
    requires AllOfSize(parts, size) && k < |parts|
    ensures 0 <= k * size && (k + 1) * size == k * size + size <= |Concat(parts)| == |parts| * size
    ensures Concat(parts)[k * size..(k + 1) * size] == parts[k]
    decreases |parts|
  {
    var front, back := parts[..|parts| - 1], parts[|parts| - 1];
    ConcatSize(parts, size);
    ConcatSize(front, size);
    Multiples(k, |parts|, size);
    if k < |front| {
      PartOf(front, size, k);
      SliceOfConcat(Concat(front), back, k * size, (k + 1) * size);
    } else {
      assert Concat(parts) == Concat(front) + back;
    }
  }

  lemma SliceOfConcat<T>(front: seq<T>, back: seq<T>, lo: nat, hi: nat)
    requires lo <= hi <= |front|
    ensures (front + back)[lo..hi] == front[lo..hi]
  {
  }

  lemma SliceOfSlice<T>(s: seq<T>, lo: nat, hi: nat, k: nat, n: nat)
    requires lo <= hi <= |s| && k + n <= hi - lo
    ensures s[lo + k..lo + k + n] == s[lo..hi][k..k + n]
  {
    var a, b := s[lo + k..lo + k + n], s[lo..hi][k..k + n];
    assert forall i :: 0 <= i < n ==> a[i] == b[i];
  }

  /** A piece of one part, when the parts are filled up to a whole. */
  lemma PieceOfPart<T>(parts: seq<seq<T>>, size: nat, total: nat, x: T, k: nat, i: nat, n: nat)
    requires AllOfSize(parts, size) && k < |parts| && i + n <= size && |Concat(parts)| <= total
    ensures 0 <= k * size && k * size + size <= total
    ensures Padded(Concat(parts), total, x)[k * size + i..k * size + i + n] == parts[k][i..i + n]
  {
    PartOf(parts, size, k);
    SliceOfSlice(Concat(parts), k * size, (k + 1) * size, i, n);
    SliceOfConcat(Concat(parts), Repeat(x, total - |Concat(parts)|), k * size + i, k * size + i + n);
  }

  lemma Associative<T>(a: seq<T>, b: seq<T>, c: seq<T>)
    ensures a + (b + c) == (a + b) + c
  {
  }

  ghost predicate Distinct(c: seq<nat>) {
    forall i, j :: 0 <= i < j < |c| ==> c[i] != c[j]
  }

  ghost function Members(c: seq<nat>): set<nat> {
    set p | p in c
  }

  lemma {:induction false} DistinctCount(c: seq<nat>)
    requires Distinct(c)
    ensures |Members(c)| == |c|
  {
    if c != [] {
      var front, last := c[..|c| - 1], c[|c| - 1];
      DistinctCount(front);
      assert c == front + [last];
      assert Members(c) == Members(front) + {last};
    }
  }

  lemma {:induction false} BoundedCount(ps: set<nat>, n: nat)
    requires forall p :: p in ps ==> p < n
    ensures |ps| <= n
  {
    if n > 0 {
      BoundedCount(ps - {n - 1}, n - 1);
    } else {
      assert ps == {};
    }
  }

  /** Slots without repetition fit in their table. */
  lemma DistinctFits(c: seq<nat>, n: nat)
    requires Distinct(c) && forall p :: p in c ==> p < n
    ensures |c| <= n
  {
    DistinctCount(c);
    BoundedCount(Members(c), n);
  }
}
