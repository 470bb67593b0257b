/**
 * `OrderedSet` / `OrderedFrozenSet`: a set that remembers the order in which
 * its elements were first added, modelled as a duplicate-free sequence.
 */
module Ordered {

  predicate NoDuplicates<T(==)>(s: seq<T>) {
    forall i, j :: 0 <= i < j < |s| ==> s[i] != s[j]
  }

  /** The elements of `s`, forgetting order. */
  function Elems<T>(s: seq<T>): set<T> {
    set y | y in s
  }

  /** `OrderedSet.add(x)`: append `x` unless it is already present. */
  function Add<T(==)>(s: seq<T>, x: T): (r: seq<T>)
    ensures NoDuplicates(s) ==> NoDuplicates(r)
    ensures Elems(r) == Elems(s) + {x}
  {
    if x in s then s else s + [x]
  }

  /** Adding every element of `xs`, left to right, to `s`. */
  function AddAll<T(==)>(s: seq<T>, xs: seq<T>): (r: seq<T>)
    ensures NoDuplicates(s) ==> NoDuplicates(r)
    ensures Elems(r) == Elems(s) + Elems(xs)
    ensures |s| <= |r| && r[..|s|] == s
    decreases |xs|
  {
    if |xs| == 0 then s else Add(AddAll(s, xs[..|xs| - 1]), xs[|xs| - 1])
  }

  /** `OrderedSet(xs)`. */
  function FromSeq<T(==)>(xs: seq<T>): (r: seq<T>)
    ensures NoDuplicates(r)
    ensures Elems(r) == Elems(xs)
  {
    AddAll([], xs)
  }

  /** The keys of a dictionary kept as its items in insertion order. */
  function Keys<K, V>(items: seq<(K, V)>): (r: seq<K>)
    ensures |r| == |items| && forall k :: 0 <= k < |items| ==> r[k] == items[k].0
  {
    seq(|items|, k requires 0 <= k < |items| => items[k].0)
  }

  /** Position of the first occurrence of `x` in `s`. */
  function FirstIndex<T(==)>(s: seq<T>, x: T): (k: nat)
    requires x in s
    ensures k < |s| && s[k] == x && x !in s[..k]
  {
    if s[0] == x then 0 else 1 + FirstIndex(s[1..], x)
  }

  lemma {:induction false} FirstIndexOfPrefix<T>(s: seq<T>, x: T, y: T)
    requires x in s
    ensures FirstIndex(s + [y], x) == FirstIndex(s, x)
    decreases |s|
  {
    if s[0] != x {
      assert (s + [y])[1..] == s[1..] + [y];
      FirstIndexOfPrefix(s[1..], x, y);
    }
  }

  /** `OrderedSet(xs)` lists each element once, in order of first occurrence in `xs`. */
  lemma {:induction false} FromSeqFirstOccurrenceOrder<T>(xs: seq<T>)
    ensures forall i, j :: 0 <= i < j < |FromSeq(xs)| ==>
      FromSeq(xs)[i] in xs && FromSeq(xs)[j] in xs &&
      FirstIndex(xs, FromSeq(xs)[i]) < FirstIndex(xs, FromSeq(xs)[j])
    decreases |xs|
  {
    if |xs| == 0 {
      assert FromSeq(xs) == [];
    } else {
      var p := xs[..|xs| - 1];
      var x := xs[|xs| - 1];
      assert xs == p + [x];
      FromSeqFirstOccurrenceOrder(p);
      var r0 := FromSeq(p);
      var r := FromSeq(xs);
      assert r == Add(r0, x);
      forall a | a in r0
        ensures FirstIndex(xs, a) == FirstIndex(p, a)
      {
        FirstIndexOfPrefix(p, a, x);
      }
      forall i, j | 0 <= i < j < |r|
        ensures r[i] in xs && r[j] in xs && FirstIndex(xs, r[i]) < FirstIndex(xs, r[j])
      {
        assert r[i] in Elems(r) && r[j] in Elems(r);
        if j < |r0| {
          assert r[i] == r0[i] && r[j] == r0[j];
        } else {
          assert x !in r0 && r == r0 + [x] && r[j] == x;
          assert x !in p;
          assert FirstIndex(xs, x) == |p|;
          assert r[i] == r0[i] && r0[i] in p;
        }
      }
    }
  }

  /** `len(set(s)) == len(s)` exactly when `s` has no repeated element. */
  lemma {:induction false} CardElems<T>(s: seq<T>)
    ensures |Elems(s)| <= |s|
    ensures |Elems(s)| == |s| <==> NoDuplicates(s)
    decreases |s|
  {
    if |s| > 0 {
      var p := s[..|s| - 1];
      var x := s[|s| - 1];
      assert s == p + [x];
      CardElems(p);
      assert Elems(s) == Elems(p) + {x};
      if x in p {
        assert x in Elems(p);
        assert Elems(s) == Elems(p);
        var k :| 0 <= k < |p| && p[k] == x;
        assert s[k] == s[|s| - 1];
      } else {
        assert x !in Elems(p);
        assert |Elems(s)| == |Elems(p)| + 1;
        if NoDuplicates(p) {
          forall i, j | 0 <= i < j < |s| ensures s[i] != s[j] {
            if j < |p| {
              assert s[i] == p[i] && s[j] == p[j];
            } else {
              assert s[i] == p[i];
            }
          }
        } else {
          var i, j :| 0 <= i < j < |p| && p[i] == p[j];
          assert s[i] == s[j];
        }
      }
    }
  }
}
