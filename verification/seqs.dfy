/** Order-preserving selection from a sequence, the shape of every
    "append when the test passes" loop in the source. */
module Seqs {

  /** The elements of `s` that satisfy `keep`, in their original order. */
  function Filter<T>(keep: T -> bool, s: seq<T>): (r: seq<T>)
    ensures |r| <= |s|
    ensures forall x :: x in r ==> keep(x)
  {
    if |s| == 0 then []
    else Filter(keep, s[..|s| - 1]) + (if keep(s[|s| - 1]) then [s[|s| - 1]] else [])
  }

  lemma {:induction false} FilterConcat<T>(keep: T -> bool, a: seq<T>, b: seq<T>)
    ensures Filter(keep, a + b) == Filter(keep, a) + Filter(keep, b)
    decreases |b|
  {
    if |b| == 0 {
      assert a + b == a;
    } else {
      var init := b[..|b| - 1];
      assert (a + b)[..|a + b| - 1] == a + init;
      FilterConcat(keep, a, init);
    }
  }

  /** Each kept element occurs as often as in the input, every other not at all. */
  lemma {:induction false} FilterCount<T>(keep: T -> bool, s: seq<T>)
    ensures forall x :: multiset(Filter(keep, s))[x] == if keep(x) then multiset(s)[x] else 0
  {
    if |s| > 0 {
      var init := s[..|s| - 1];
      FilterCount(keep, init);
      assert s == init + [s[|s| - 1]];
    }
  }

  lemma {:induction false} FilterIdempotent<T>(keep: T -> bool, s: seq<T>)
    ensures Filter(keep, Filter(keep, s)) == Filter(keep, s)
  {
    if |s| > 0 {
      var init := s[..|s| - 1];
      var x := s[|s| - 1];
      FilterIdempotent(keep, init);
      assert Filter(keep, s) == Filter(keep, init) + (if keep(x) then [x] else []);
      if keep(x) {
        FilterConcat(keep, Filter(keep, init), [x]);
        assert [x][..0] == [];
        assert Filter(keep, [x]) == [x];
        assert Filter(keep, s) == Filter(keep, init) + [x];
      } else {
        assert Filter(keep, s) == Filter(keep, init);
      }
    }
  }

  /** Filtering by a test that excludes the first one leaves nothing. */
  lemma {:induction false} FilterDisjoint<T>(keep: T -> bool, other: T -> bool, s: seq<T>)
    requires forall x :: keep(x) ==> !other(x)
    ensures Filter(other, Filter(keep, s)) == []
  {
    if |s| > 0 {
      var init := s[..|s| - 1];
      var x := s[|s| - 1];
      FilterDisjoint(keep, other, init);
      assert Filter(keep, s) == Filter(keep, init) + (if keep(x) then [x] else []);
      if keep(x) {
        FilterConcat(other, Filter(keep, init), [x]);
        assert [x][..0] == [];
        assert !other(x);
        assert Filter(other, [x]) == [];
        assert Filter(keep, s) == Filter(keep, init) + [x];
      } else {
        assert Filter(keep, s) == Filter(keep, init);
      }
    }
  }

  /** Two disjoint selections placed one after the other hold exactly the
      selected elements, each as often as in the input. */
  lemma TwoGroupsCount<T>(first: T -> bool, second: T -> bool, s: seq<T>)
    requires forall x :: first(x) ==> !second(x)
    ensures var r := Filter(first, s) + Filter(second, s);
      forall x :: multiset(r)[x] == if first(x) || second(x) then multiset(s)[x] else 0
  {
    var p := Filter(first, s);
    var f := Filter(second, s);
    FilterCount(first, s);
    FilterCount(second, s);
    assert multiset(p + f) == multiset(p) + multiset(f);
  }

  /** All of the first group comes before any of the second. */
  lemma TwoGroupsOrder<T>(first: T -> bool, second: T -> bool, s: seq<T>)
    requires forall x :: first(x) ==> !second(x)
    ensures var r := Filter(first, s) + Filter(second, s);
      forall i, j :: 0 <= i < j < |r| && first(r[j]) ==> first(r[i])
  {
    var p := Filter(first, s);
    var f := Filter(second, s);
    var r := p + f;
    forall i, j | 0 <= i < j < |r| && first(r[j])
      ensures first(r[i])
    {
      if j >= |p| {
        assert r[j] == f[j - |p|];
        assert r[j] in f;
        NotBoth(first, second, r[j]);
        assert false;
      }
      assert r[i] == p[i];
      assert p[i] in p;
    }
  }

  /** Each group keeps its original order: selecting a group again from the
      result gives the group. */
  lemma TwoGroupsRefilter<T>(first: T -> bool, second: T -> bool, s: seq<T>)
    requires forall x :: first(x) ==> !second(x)
    ensures var r := Filter(first, s) + Filter(second, s);
      Filter(first, r) == Filter(first, s) && Filter(second, r) == Filter(second, s)
  {
    var p := Filter(first, s);
    var f := Filter(second, s);
    FilterConcat(first, p, f);
    FilterConcat(second, p, f);
    FilterIdempotent(first, s);
    FilterIdempotent(second, s);
    FilterDisjoint(first, second, s);
    FilterDisjoint(second, first, s);
    assert p + [] == p;
    assert [] + f == f;
  }

  /** An element of a concatenation comes from one of its parts. */
  lemma ElementOfConcat<T>(p: seq<T>, f: seq<T>, j: int)
    requires 0 <= j < |p + f|
    ensures (p + f)[j] in p || (p + f)[j] in f
  {
    if j < |p| {
      assert (p + f)[j] == p[j];
    } else {
      assert (p + f)[j] == f[j - |p|];
    }
  }

  lemma NotBoth<T>(first: T -> bool, second: T -> bool, x: T)
    requires forall y :: first(y) ==> !second(y)
    ensures !(first(x) && second(x))
  {
  }
}
