/** A JavaScript `Set` seen through its iteration order: the sequence of its
    elements in insertion order. `Array.from(new Set(xs))` is `FromSeq(xs)`. */
module OrderedSet {

  predicate Distinct<T(==)>(xs: seq<T>) {
    forall i, j :: 0 <= i < j < |xs| ==> xs[i] != xs[j]
  }

  /** `set.add(x)`: a new element goes to the end, a present one keeps its place. */
  function Add<T(==)>(contents: seq<T>, x: T): (r: seq<T>)
    ensures |contents| <= |r| <= |contents| + 1 && r[..|contents|] == contents
    ensures x in r
    ensures forall k :: 0 <= k < |r| ==> r[k] in contents || r[k] == x
    ensures Distinct(contents) ==> Distinct(r)
  {
    if x in contents then contents else contents + [x]
  }

  /** Adding the elements of `xs` one by one, left to right. */
  function AddAll<T(==)>(contents: seq<T>, xs: seq<T>): (r: seq<T>)
    ensures |contents| <= |r| <= |contents| + |xs| && r[..|contents|] == contents
    ensures forall k :: 0 <= k < |xs| ==> xs[k] in r
    ensures forall k :: 0 <= k < |r| ==> r[k] in contents || r[k] in xs
    ensures Distinct(contents) ==> Distinct(r)
    decreases |xs|
  {
    if xs == [] then contents
    else
      var next := Add(contents, xs[0]);
      var r := AddAll(next, xs[1..]);
      assert r[..|contents|] == r[..|next|][..|contents|];
      assert xs[0] in r by {
        var i :| 0 <= i < |next| && next[i] == xs[0];
        assert r[..|next|][i] == r[i];
      }
      assert forall k :: 1 <= k < |xs| ==> xs[k] == xs[1..][k - 1];
      r
  }

  /** `Array.from(new Set(xs))`. */
  function FromSeq<T(==)>(xs: seq<T>): (r: seq<T>)
    ensures Distinct(r)
    ensures forall k :: 0 <= k < |xs| ==> xs[k] in r
    ensures forall k :: 0 <= k < |r| ==> r[k] in xs
    ensures |r| <= |xs|
  {
    AddAll([], xs)
  }

  /** Reference definition: the elements of `xs` at their first occurrences,
      built from the right end rather than by insertion. */
  function FirstOccurrences<T(==)>(xs: seq<T>): seq<T> {
    if xs == [] then []
    else
      var init, last := xs[..|xs| - 1], xs[|xs| - 1];
      FirstOccurrences(init) + (if last in init then [] else [last])
  }

  /** The position of the first occurrence of `x` in `xs`. */
  function IndexOf<T(==)>(xs: seq<T>, x: T): (i: nat)
    requires x in xs
    ensures i < |xs| && xs[i] == x && x !in xs[..i]
  {
    if xs[0] == x then 0
    else
      assert x in xs[1..];
      var i := 1 + IndexOf(xs[1..], x);
      assert xs[..i] == [xs[0]] + xs[1..][..i - 1];
      i
  }

  lemma {:induction false} IndexOfInPrefix<T>(xs: seq<T>, ys: seq<T>, x: T)
    requires x in xs
    ensures IndexOf(xs + ys, x) == IndexOf(xs, x)
  {
    if xs[0] != x {
      assert (xs + ys)[1..] == xs[1..] + ys;
      IndexOfInPrefix(xs[1..], ys, x);
    }
  }

  lemma {:induction false} IndexOfAppended<T>(xs: seq<T>, x: T)
    requires x !in xs
    ensures IndexOf(xs + [x], x) == |xs|
  {
    if xs != [] {
      assert (xs + [x])[1..] == xs[1..] + [x];
      IndexOfAppended(xs[1..], x);
    }
  }

  lemma {:induction false} FirstOccurrencesMembers<T>(xs: seq<T>)
    ensures forall x :: x in FirstOccurrences(xs) <==> x in xs
    ensures |FirstOccurrences(xs)| <= |xs|
  {
    if xs != [] {
      var init := xs[..|xs| - 1];
      FirstOccurrencesMembers(init);
      assert xs == init + [xs[|xs| - 1]];
    }
  }

  lemma {:induction false} FirstOccurrencesDistinct<T>(xs: seq<T>)
    ensures Distinct(FirstOccurrences(xs))
  {
    if xs != [] {
      var init := xs[..|xs| - 1];
      FirstOccurrencesDistinct(init);
      FirstOccurrencesMembers(init);
    }
  }

  /** The elements come in the order of their first occurrences in `xs`. */
  lemma {:induction false} FirstOccurrencesOrder<T>(xs: seq<T>)
    ensures forall x :: x in FirstOccurrences(xs) ==> x in xs
    ensures forall i, j :: 0 <= i < j < |FirstOccurrences(xs)| ==>
      IndexOf(xs, FirstOccurrences(xs)[i]) < IndexOf(xs, FirstOccurrences(xs)[j])
  {
    FirstOccurrencesMembers(xs);
    if xs != [] {
      var init, last := xs[..|xs| - 1], xs[|xs| - 1];
      var r0 := FirstOccurrences(init);
      var r := FirstOccurrences(xs);
      FirstOccurrencesOrder(init);
      assert xs == init + [last];
      forall i, j | 0 <= i < j < |r| ensures IndexOf(xs, r[i]) < IndexOf(xs, r[j]) {
        assert r[i] == r0[i];
        IndexOfInPrefix(init, [last], r[i]);
        if j < |r0| {
          assert r[j] == r0[j];
          IndexOfInPrefix(init, [last], r[j]);
          assert IndexOf(init, r0[i]) < IndexOf(init, r0[j]);
        } else {
          assert r[j] == last && last !in init;
          IndexOfAppended(init, last);
          assert IndexOf(xs, r[i]) == IndexOf(init, r[i]);
          assert IndexOf(xs, r[i]) < |init|;
        }
      }
    }
  }

  /** Adding one element to the reference sequence of `prefix` gives the
      reference sequence of `prefix` extended by that element. */
  lemma FirstOccurrencesSnoc<T>(prefix: seq<T>, x: T)
    ensures FirstOccurrences(prefix + [x]) == Add(FirstOccurrences(prefix), x)
  {
    FirstOccurrencesMembers(prefix);
    assert (prefix + [x])[..|prefix + [x]| - 1] == prefix;
  }

  /** Building the set by insertion gives the reference sequence. */
  lemma {:induction false} AddAllIsFirstOccurrences<T>(prefix: seq<T>, xs: seq<T>)
    ensures AddAll(FirstOccurrences(prefix), xs) == FirstOccurrences(prefix + xs)
    decreases |xs|
  {
    if xs == [] {
      assert prefix + xs == prefix;
    } else {
      calc {
        AddAll(FirstOccurrences(prefix), xs);
        AddAll(Add(FirstOccurrences(prefix), xs[0]), xs[1..]);
        { FirstOccurrencesSnoc(prefix, xs[0]); }
        AddAll(FirstOccurrences(prefix + [xs[0]]), xs[1..]);
        { AddAllIsFirstOccurrences(prefix + [xs[0]], xs[1..]); }
        FirstOccurrences(prefix + [xs[0]] + xs[1..]);
        { assert prefix + [xs[0]] + xs[1..] == prefix + xs; }
        FirstOccurrences(prefix + xs);
      }
    }
  }

  /** What `Array.from(new Set(xs))` promises: every element of `xs` once, no
      other value, in order of first occurrence, and never more than `xs` holds. */
  lemma FromSeqSpec<T>(xs: seq<T>)
    ensures var r := FromSeq(xs);
      && Distinct(r)
      && (forall x :: x in r <==> x in xs)
      && |r| <= |xs|
      && (forall i, j :: 0 <= i < j < |r| ==> IndexOf(xs, r[i]) < IndexOf(xs, r[j]))
  {
    AddAllIsFirstOccurrences([], xs);
    assert [] + xs == xs;
    FirstOccurrencesMembers(xs);
    FirstOccurrencesDistinct(xs);
    FirstOccurrencesOrder(xs);
  }

  /** A sequence without repeats passes through the set unchanged. */
  lemma {:induction false} FirstOccurrencesOfDistinct<T>(xs: seq<T>)
    requires Distinct(xs)
    ensures FirstOccurrences(xs) == xs
  {
    if xs != [] {
      var init := xs[..|xs| - 1];
      FirstOccurrencesOfDistinct(init);
      assert xs == init + [xs[|xs| - 1]];
    }
  }

  /** A value given twice is kept once. */
  lemma FromSeqOfTwin<T>(x: T)
    ensures FromSeq([x, x]) == [x]
  {
    calc {
      FromSeq([x, x]);
      AddAll([], [x, x]);
      { assert [x, x][1..] == [x]; }
      AddAll(Add([], x), [x]);
      { assert Add([], x) == [x]; }
      AddAll([x], [x]);
      { assert [x][1..] == []; }
      AddAll(Add([x], x), []);
    }
  }

  lemma FromSeqOfDistinct<T>(xs: seq<T>)
    requires Distinct(xs)
    ensures FromSeq(xs) == xs
  {
    AddAllIsFirstOccurrences([], xs);
    assert [] + xs == xs;
    FirstOccurrencesOfDistinct(xs);
  }
}
