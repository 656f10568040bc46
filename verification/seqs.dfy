/**
 Insertion-ordered sets kept as sequences: the key order of a `LinkedHashMap`
 and the element order of a `LinkedHashSet`. Adding an element already present
 changes nothing; a new element goes at the end.
 */
module Seqs {

  /** No element occurs twice. */
  predicate Distinct<T(==)>(s: seq<T>) {
    forall i, j :: 0 <= i < j < |s| ==> s[i] != s[j]
  }

  /** Position of the first occurrence of `x` in `s`. */
  function FirstIndex<T(==)>(s: seq<T>, x: T): (i: nat)
    requires x in s
    ensures i < |s| && s[i] == x
    ensures forall j :: 0 <= j < i ==> s[j] != x
  {
    if s[0] == x then 0 else 1 + FirstIndex(s[1..], x)
  }

  /** `LinkedHashSet.add`: appends `x` unless it is already there. */
  function AppendNew<T(==)>(s: seq<T>, x: T): seq<T> {
    if x in s then s else s + [x]
  }

  /** `LinkedHashSet.addAll`: adds the elements of `xs` one by one, in order. */
  function AddAll<T(==)>(s: seq<T>, xs: seq<T>): seq<T>
    decreases |xs|
  {
    if |xs| == 0 then s else AddAll(AppendNew(s, xs[0]), xs[1..])
  }

  /** The elements of `xs` in first-seen order, each once. */
  function Dedup<T(==)>(xs: seq<T>): seq<T> {
    AddAll([], xs)
  }

  /** Adding two batches one after the other is adding their concatenation. */
  lemma {:induction false} AddAllConcat<T>(s: seq<T>, a: seq<T>, b: seq<T>)
    ensures AddAll(s, a + b) == AddAll(AddAll(s, a), b)
    decreases |a|
  {
    if |a| == 0 {
      assert a + b == b;
    } else {
      assert (a + b)[0] == a[0];
      assert (a + b)[1..] == a[1..] + b;
      AddAllConcat(AppendNew(s, a[0]), a[1..], b);
    }
  }

  /** Adding one more element at the end of a batch is one more `AppendNew`. */
  lemma AddAllSnoc<T>(s: seq<T>, xs: seq<T>, x: T)
    ensures AddAll(s, xs + [x]) == AppendNew(AddAll(s, xs), x)
  {
    AddAllConcat(s, xs, [x]);
    assert AddAll(AppendNew(AddAll(s, xs), x), []) == AppendNew(AddAll(s, xs), x);
  }

  /**
   What `AddAll` keeps: the original sequence stays in front, untouched; the
   result holds exactly the elements of both arguments; and it has no
   duplicates when the original had none.
   */
  lemma {:induction false} AddAllFacts<T>(s: seq<T>, xs: seq<T>)
    ensures s <= AddAll(s, xs)
    ensures forall x :: x in AddAll(s, xs) <==> x in s || x in xs
    ensures Distinct(s) ==> Distinct(AddAll(s, xs))
    decreases |xs|
  {
    if |xs| > 0 {
      var s' := AppendNew(s, xs[0]);
      AddAllFacts(s', xs[1..]);
      assert xs == [xs[0]] + xs[1..];
      forall x
        ensures x in AddAll(s, xs) <==> x in s || x in xs
      {
        assert x in s' <==> x in s || x == xs[0];
        assert x in xs <==> x == xs[0] || x in xs[1..];
      }
    }
  }

  /**
   Every element of `d` occurs in `stream`, and of two elements of `d` the
   earlier one occurs first in `stream`.
   */
  ghost predicate FirstSeenOrder<T>(stream: seq<T>, d: seq<T>) {
    && (forall x :: x in d ==> x in stream)
    && forall i, j :: 0 <= i < j < |d| ==> FirstIndex(stream, d[i]) < FirstIndex(stream, d[j])
  }

  /**
   `AddAll` lists the new elements in the order of their first occurrence:
   of two elements of the result, the earlier one was seen first in the
   combined input `s + xs`.
   */
  lemma {:induction false} AddAllFirstSeen<T>(s: seq<T>, xs: seq<T>)
    requires Distinct(s)
    ensures FirstSeenOrder(s + xs, AddAll(s, xs))
    decreases |xs|
  {
    if |xs| == 0 {
      assert s + xs == s;
      DistinctFirstIndex(s);
    } else {
      var ys := xs[..|xs| - 1];
      var y := xs[|xs| - 1];
      assert xs == ys + [y];
      assert s + xs == (s + ys) + [y];
      AddAllSnoc(s, ys, y);
      AddAllFirstSeen(s, ys);
      AddAllFacts(s, ys);
      FirstSeenStep(s + ys, AddAll(s, ys), y);
    }
  }

  /** The first-seen deduplication of `xs`: each element of `xs` once, in first-seen order. */
  lemma DedupFacts<T>(xs: seq<T>)
    ensures Distinct(Dedup(xs))
    ensures forall x :: x in Dedup(xs) <==> x in xs
    ensures FirstSeenOrder(xs, Dedup(xs))
  {
    AddAllFacts([], xs);
    AddAllFirstSeen([], xs);
    assert [] + xs == xs;
  }

  /** One `AppendNew` keeps the first-seen order when the stream grows by the same element. */
  lemma FirstSeenStep<T>(stream: seq<T>, d: seq<T>, y: T)
    requires FirstSeenOrder(stream, d)
    requires forall x :: x in stream ==> x in d
    ensures FirstSeenOrder(stream + [y], AppendNew(d, y))
  {
    var d' := AppendNew(d, y);
    forall x | x in stream
      ensures FirstIndex(stream + [y], x) == FirstIndex(stream, x)
    {
      FirstIndexSnoc(stream, y, x);
    }
    forall i, j | 0 <= i < j < |d'|
      ensures FirstIndex(stream + [y], d'[i]) < FirstIndex(stream + [y], d'[j])
    {
      assert d'[i] == d[i];
      if j < |d| {
        assert d'[j] == d[j];
      } else {
        assert d'[j] == y && y !in stream;
        FirstIndexSnocNew(stream, y);
      }
    }
  }

  /** In a sequence without duplicates, the first index of `s[i]` is `i`. */
  lemma DistinctFirstIndex<T>(s: seq<T>)
    requires Distinct(s)
    ensures forall i :: 0 <= i < |s| ==> FirstIndex(s, s[i]) == i
  {
    forall i | 0 <= i < |s|
      ensures FirstIndex(s, s[i]) == i
    {
      var k := FirstIndex(s, s[i]);
      assert s[k] == s[i];
    }
  }

  /** Appending does not move the first occurrence of an element already present. */
  lemma FirstIndexSnoc<T>(s: seq<T>, y: T, x: T)
    requires x in s
    ensures FirstIndex(s + [y], x) == FirstIndex(s, x)
  {
    var k := FirstIndex(s, x);
    var k' := FirstIndex(s + [y], x);
    assert (s + [y])[k] == x;
    assert k' <= k;
    assert s[k'] == x;
  }

  /** A new element appended at the end is first seen at the end. */
  lemma FirstIndexSnocNew<T>(s: seq<T>, y: T)
    requires y !in s
    ensures FirstIndex(s + [y], y) == |s|
  {
    var k := FirstIndex(s + [y], y);
    assert (s + [y])[|s|] == y;
  }
}
