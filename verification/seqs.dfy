/** Order-preserving filters over sequences, the shape of every list
    comprehension with an `if` in the controllers. */
module Seqs {

  /** No element occurs twice. */
  predicate Distinct<T(==)>(s: seq<T>)
  {
    forall a, b :: 0 <= a < b < |s| ==> s[a] != s[b]
  }

  /** `[x for x in s if keep(x)]`. */
  function Filter<T>(keep: T -> bool, s: seq<T>): (r: seq<T>)
    ensures |r| <= |s|
    ensures forall i :: 0 <= i < |r| ==> r[i] in s && keep(r[i])
    ensures forall i :: 0 <= i < |s| && keep(s[i]) ==> s[i] in r
  {
    if |s| == 0 then []
    else if keep(s[0]) then [s[0]] + Filter(keep, s[1..])
    else Filter(keep, s[1..])
  }

  lemma {:induction false} FilterAppend<T>(keep: T -> bool, s: seq<T>, t: seq<T>)
    ensures Filter(keep, s + t) == Filter(keep, s) + Filter(keep, t)
  {
    if |s| == 0 {
      assert s + t == t;
    } else {
      assert (s + t)[1..] == s[1..] + t;
      FilterAppend(keep, s[1..], t);
    }
  }

  /** Appending one element extends the filter by that element exactly when
      it is kept: the step of a loop that appends to an output list. */
  lemma FilterSnoc<T>(keep: T -> bool, s: seq<T>, x: T)
    ensures Filter(keep, s + [x]) == Filter(keep, s) + (if keep(x) then [x] else [])
  {
    FilterAppend(keep, s, [x]);
  }

  /** `[x for x in s if not keep(x)]`. */
  function FilterOut<T>(keep: T -> bool, s: seq<T>): (r: seq<T>)
    ensures |r| <= |s|
    ensures forall i :: 0 <= i < |r| ==> r[i] in s && !keep(r[i])
    ensures forall i :: 0 <= i < |s| && !keep(s[i]) ==> s[i] in r
  {
    if |s| == 0 then []
    else if keep(s[0]) then FilterOut(keep, s[1..])
    else [s[0]] + FilterOut(keep, s[1..])
  }

  lemma FilterOutSnoc<T>(keep: T -> bool, s: seq<T>, x: T)
    ensures FilterOut(keep, s + [x]) == FilterOut(keep, s) + (if keep(x) then [] else [x])
  {
    FilterOutAppend(keep, s, [x]);
  }

  lemma {:induction false} FilterOutAppend<T>(keep: T -> bool, s: seq<T>, t: seq<T>)
    ensures FilterOut(keep, s + t) == FilterOut(keep, s) + FilterOut(keep, t)
  {
    if |s| == 0 {
      assert s + t == t;
    } else {
      assert (s + t)[1..] == s[1..] + t;
      FilterOutAppend(keep, s[1..], t);
    }
  }

  /** A value is kept exactly when it occurs in the input and passes. */
  lemma FilterMembers<T>(keep: T -> bool, s: seq<T>)
    ensures forall x :: x in Filter(keep, s) <==> x in s && keep(x)
  {
    var r := Filter(keep, s);
    forall x | x in r ensures x in s && keep(x) {
      var i :| 0 <= i < |r| && r[i] == x;
    }
    forall x | x in s && keep(x) ensures x in r {
      var i :| 0 <= i < |s| && s[i] == x;
    }
  }

  /** Splitting a list by a predicate loses and invents nothing: the kept
      and the rejected elements together are a permutation of the input. */
  lemma {:induction false} FilterPartition<T>(keep: T -> bool, s: seq<T>)
    ensures multiset(Filter(keep, s)) + multiset(FilterOut(keep, s)) == multiset(s)
  {
    if |s| > 0 {
      FilterPartition(keep, s[1..]);
      assert s == [s[0]] + s[1..];
    }
  }

  /** When every element is kept, the filter is the identity and its
      complement is empty. */
  lemma {:induction false} FilterAllKept<T>(keep: T -> bool, s: seq<T>)
    requires forall i :: 0 <= i < |s| ==> keep(s[i])
    ensures Filter(keep, s) == s
    ensures FilterOut(keep, s) == []
  {
    if |s| > 0 {
      FilterAllKept(keep, s[1..]);
    }
  }

  /** When no element is kept, the filter is empty and its complement is the
      identity. */
  lemma {:induction false} FilterNoneKept<T>(keep: T -> bool, s: seq<T>)
    requires forall i :: 0 <= i < |s| ==> !keep(s[i])
    ensures Filter(keep, s) == []
    ensures FilterOut(keep, s) == s
  {
    if |s| > 0 {
      FilterNoneKept(keep, s[1..]);
    }
  }

  /** `[f(x) for x in s]`. */
  function Map<T, U>(f: T -> U, s: seq<T>): (r: seq<U>)
    ensures |r| == |s|
    ensures forall i :: 0 <= i < |s| ==> r[i] == f(s[i])
  {
    seq(|s|, i requires 0 <= i < |s| => f(s[i]))
  }

  lemma MapSnoc<T, U>(f: T -> U, s: seq<T>, x: T)
    ensures Map(f, s + [x]) == Map(f, s) + [f(x)]
  {
  }
}
