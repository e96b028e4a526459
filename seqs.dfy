/** Order-preserving selection and element-wise mapping over sequences. */
module Seqs {

  /** The elements of `s` that satisfy `p`, in their original order (JavaScript's `filter`). */
  function Filter<T>(s: seq<T>, p: T -> bool): (r: seq<T>)
    ensures |r| <= |s|
  {
    if s == [] then []
    else
      var prev := Filter(s[..|s| - 1], p);
      if p(s[|s| - 1]) then prev + [s[|s| - 1]] else prev
  }

  /** Everything `Filter` keeps satisfies `p` and comes from `s`. */
  lemma {:induction false} FilterMembers<T>(s: seq<T>, p: T -> bool)
    ensures forall x :: x in Filter(s, p) ==> p(x) && x in s
  {
    if s != [] {
      FilterMembers(s[..|s| - 1], p);
    }
  }

  /** `f` applied to every element of `s` (JavaScript's `map`). */
  function Map<T, U>(s: seq<T>, f: T -> U): (r: seq<U>)
    ensures |r| == |s|
    ensures forall i :: 0 <= i < |s| ==> r[i] == f(s[i])
  {
    seq(|s|, i requires 0 <= i < |s| => f(s[i]))
  }

  /** Appending one element extends the filtered sequence by that element exactly when it is kept. */
  lemma FilterSnoc<T>(s: seq<T>, x: T, p: T -> bool)
    ensures Filter(s + [x], p) == if p(x) then Filter(s, p) + [x] else Filter(s, p)
  {
    assert (s + [x])[..|s|] == s;
  }

  lemma MapSnoc<T, U>(s: seq<T>, x: T, f: T -> U)
    ensures Map(s + [x], f) == Map(s, f) + [f(x)]
  {
  }

  /** Mapping distributes over concatenation. */
  lemma MapAppend<T, U>(a: seq<T>, b: seq<T>, f: T -> U)
    ensures Map(a + b, f) == Map(a, f) + Map(b, f)
  {
    assert forall i :: 0 <= i < |a| + |b| ==> (a + b)[i] == if i < |a| then a[i] else b[i - |a|];
  }

  /** An element of `s` that satisfies `p` is kept by `Filter`. */
  lemma {:induction false} FilterKeepsMember<T>(s: seq<T>, p: T -> bool, x: T)
    requires x in s && p(x)
    ensures x in Filter(s, p)
  {
    var n := |s| - 1;
    if s[n] != x {
      assert x in s[..n] by {
        var i :| 0 <= i < |s| && s[i] == x;
        assert i < n && s[..n][i] == x;
      }
      FilterKeepsMember(s[..n], p, x);
    }
  }

  /** Filtering distributes over concatenation. */
  lemma {:induction false} FilterAppend<T>(a: seq<T>, b: seq<T>, p: T -> bool)
    ensures Filter(a + b, p) == Filter(a, p) + Filter(b, p)
    decreases |b|
  {
    if b == [] {
      assert a + b == a;
    } else {
      var b' := b[..|b| - 1];
      var x := b[|b| - 1];
      assert b == b' + [x];
      assert a + b == (a + b') + [x];
      FilterAppend(a, b', p);
      FilterSnoc(a + b', x, p);
      FilterSnoc(b', x, p);
      if p(x) {
        calc {
          Filter(a + b, p);
          Filter(a + b', p) + [x];
          (Filter(a, p) + Filter(b', p)) + [x];
          Filter(a, p) + (Filter(b', p) + [x]);
        }
      }
    }
  }

  /** A filter that every element passes leaves the sequence as it is. */
  lemma {:induction false} FilterKeepsAll<T>(s: seq<T>, p: T -> bool)
    requires forall i :: 0 <= i < |s| ==> p(s[i])
    ensures Filter(s, p) == s
  {
    if s != [] {
      FilterKeepsAll(s[..|s| - 1], p);
      assert s[..|s| - 1] + [s[|s| - 1]] == s;
    }
  }

  /** A filter that no element passes yields the empty sequence. */
  lemma {:induction false} FilterDropsAll<T>(s: seq<T>, p: T -> bool)
    requires forall i :: 0 <= i < |s| ==> !p(s[i])
    ensures Filter(s, p) == []
  {
    if s != [] {
      FilterDropsAll(s[..|s| - 1], p);
    }
  }

  /** Filtering by `p` first changes nothing when every element that `q` keeps also passes `p`. */
  lemma {:induction false} FilterFilter<T>(s: seq<T>, p: T -> bool, q: T -> bool)
    requires forall x :: q(x) ==> p(x)
    ensures Filter(Filter(s, p), q) == Filter(s, q)
  {
    if s != [] {
      var n := |s| - 1;
      FilterFilter(s[..n], p, q);
      if p(s[n]) {
        FilterSnoc(Filter(s[..n], p), s[n], q);
      }
    }
  }

  /** The positions of `s` whose element satisfies `p`. */
  ghost function Positions<T>(s: seq<T>, p: T -> bool): set<int> {
    set i | 0 <= i < |s| && p(s[i])
  }

  /** `idx` lists, strictly increasing, positions of `s` whose elements are those of `Filter(s, p)` in order. */
  ghost predicate SelectsFilter<T>(s: seq<T>, p: T -> bool, idx: seq<int>) {
    && |idx| == |Filter(s, p)|
    && (forall j :: 0 <= j < |idx| ==> 0 <= idx[j] < |s| && p(s[idx[j]]) && Filter(s, p)[j] == s[idx[j]])
    && (forall j, k :: 0 <= j < k < |idx| ==> idx[j] < idx[k])
  }

  lemma SelectsFilterSnoc<T>(s: seq<T>, p: T -> bool, prev: seq<int>)
    requires s != [] && SelectsFilter(s[..|s| - 1], p, prev)
    ensures SelectsFilter(s, p, if p(s[|s| - 1]) then prev + [|s| - 1] else prev)
  {
    var n := |s| - 1;
    var front := s[..n];
    assert s == front + [s[n]];
    FilterSnoc(front, s[n], p);
    forall j | 0 <= j < |prev| ensures front[prev[j]] == s[prev[j]] {}
    if p(s[n]) {
      SelectsExtend(front, s[n], p, prev);
    }
  }

  lemma SelectsExtend<T>(front: seq<T>, x: T, p: T -> bool, prev: seq<int>)
    requires p(x) && SelectsFilter(front, p, prev)
    requires Filter(front + [x], p) == Filter(front, p) + [x]
    ensures SelectsFilter(front + [x], p, prev + [|front|])
  {
    var s := front + [x];
    var idx := prev + [|front|];
    var f := Filter(front, p);
    forall j | 0 <= j < |idx|
      ensures 0 <= idx[j] < |s| && p(s[idx[j]]) && Filter(s, p)[j] == s[idx[j]]
    {
      if j < |prev| {
        assert idx[j] == prev[j] && Filter(s, p)[j] == f[j] && s[prev[j]] == front[prev[j]];
      }
    }
  }

  lemma SelectsAllSnoc<T>(s: seq<T>, p: T -> bool, prev: seq<int>)
    requires s != []
    requires forall i :: 0 <= i < |s| - 1 && p(s[..|s| - 1][i]) ==> i in prev
    ensures forall i :: 0 <= i < |s| && p(s[i]) ==> i in (if p(s[|s| - 1]) then prev + [|s| - 1] else prev)
  {
    var n := |s| - 1;
    var idx := if p(s[n]) then prev + [n] else prev;
    forall i | 0 <= i < |s| && p(s[i]) ensures i in idx {
      if i < n {
        assert s[..n][i] == s[i];
      } else {
        assert idx[|idx| - 1] == n;
      }
    }
  }

  /**
   * `Filter(s, p)` is exactly the elements of `s` that satisfy `p`, in their order:
   * `idx` lists their positions in `s`, strictly increasing, and names every such position.
   */
  lemma {:induction false} FilterSelection<T>(s: seq<T>, p: T -> bool) returns (idx: seq<int>)
    ensures |idx| == |Filter(s, p)|
    ensures forall j :: 0 <= j < |idx| ==> 0 <= idx[j] < |s| && p(s[idx[j]]) && Filter(s, p)[j] == s[idx[j]]
    ensures forall j, k :: 0 <= j < k < |idx| ==> idx[j] < idx[k]
    ensures forall i :: 0 <= i < |s| && p(s[i]) ==> i in idx
  {
    if s == [] {
      idx := [];
    } else {
      var n := |s| - 1;
      var prev := FilterSelection(s[..n], p);
      SelectsFilterSnoc(s, p, prev);
      SelectsAllSnoc(s, p, prev);
      idx := if p(s[n]) then prev + [n] else prev;
    }
  }

  /** The filtered sequence is as long as the number of positions that pass the filter. */
  lemma {:induction false} FilterCount<T>(s: seq<T>, p: T -> bool)
    ensures |Filter(s, p)| == |Positions(s, p)|
  {
    if s == [] {
      assert Positions(s, p) == {};
    } else {
      var n := |s| - 1;
      FilterCount(s[..n], p);
      var before := Positions(s[..n], p);
      assert n !in before;
      if p(s[n]) {
        assert Positions(s, p) == before + {n};
      } else {
        assert Positions(s, p) == before;
      }
    }
  }
}
