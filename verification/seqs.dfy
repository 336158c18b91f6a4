/** Sequence helpers used to describe ordered pandas columns and indexes. */
module Seqs {

  /** The distinct values of a column, as a set. */
  function Elems<T>(s: seq<T>): set<T> {
    set x | x in s
  }

  /** A column without repeated values (a unique index). */
  predicate NoDup<T(==)>(s: seq<T>) {
    forall i, j :: 0 <= i < j < |s| ==> s[i] != s[j]
  }

  /** The values of `s` that satisfy `keep`, in their original order (a boolean mask). */
  function Filter<T>(s: seq<T>, keep: T -> bool): (r: seq<T>)
    ensures |r| <= |s|
    ensures forall i :: 0 <= i < |r| ==> r[i] in s && keep(r[i])
    ensures forall i :: 0 <= i < |s| && keep(s[i]) ==> s[i] in r
  {
    if |s| == 0 then []
    else Filter(s[..|s| - 1], keep) + (if keep(s[|s| - 1]) then [s[|s| - 1]] else [])
  }

  lemma {:induction false} FilterAppend<T>(a: seq<T>, b: seq<T>, keep: T -> bool)
    ensures Filter(a + b, keep) == Filter(a, keep) + Filter(b, keep)
  {
    if |b| > 0 {
      FilterAppend(a, b[..|b| - 1], keep);
      assert (a + b)[..|a + b| - 1] == a + b[..|b| - 1];
    } else {
      assert a + b == a;
    }
  }

  lemma {:induction false} FilterNoDup<T>(s: seq<T>, keep: T -> bool)
    requires NoDup(s)
    ensures NoDup(Filter(s, keep))
  {
    if |s| > 0 {
      FilterNoDup(s[..|s| - 1], keep);
      assert s[|s| - 1] !in s[..|s| - 1];
    }
  }

  /** The values of `s` in order of first occurrence, each once (`drop_duplicates(keep="first")`). */
  function Dedup<T(==)>(s: seq<T>): (r: seq<T>)
    ensures NoDup(r)
    ensures Elems(r) == Elems(s)
    ensures |r| <= |s|
  {
    if |s| == 0 then []
    else
      var r := Dedup(s[..|s| - 1]);
      assert Elems(s) == Elems(s[..|s| - 1]) + {s[|s| - 1]} by {
        assert s == s[..|s| - 1] + [s[|s| - 1]];
      }
      if s[|s| - 1] in r then r else r + [s[|s| - 1]]
  }

  /** Deduplicating one more value keeps the earlier result and appends the value
      when it is new. */
  lemma DedupSnoc<T>(s: seq<T>, x: T)
    ensures Dedup(s + [x]) == if x in Dedup(s) then Dedup(s) else Dedup(s) + [x]
  {
    assert (s + [x])[..|s|] == s;
  }

  /** Deduplicating a duplicate-free column changes nothing. */
  lemma {:induction false} DedupNoDup<T>(s: seq<T>)
    requires NoDup(s)
    ensures Dedup(s) == s
  {
    if |s| > 0 {
      DedupNoDup(s[..|s| - 1]);
      assert s[|s| - 1] !in s[..|s| - 1];
    }
  }

  /** Strictly increasing integers: a sorted index without repeats. */
  predicate Increasing(s: seq<int>) {
    forall i, j :: 0 <= i < j < |s| ==> s[i] < s[j]
  }

  /** `x` put into an increasing sequence at its place, unless it is already there. */
  function Insert(s: seq<int>, x: int): (r: seq<int>)
    requires Increasing(s)
    ensures Increasing(r)
    ensures forall v :: v in r <==> v in s || v == x
  {
    if |s| == 0 then [x]
    else if x < s[0] then [x] + s
    else if x == s[0] then s
    else
      var t := Insert(s[1..], x);
      assert forall v :: v in s <==> v == s[0] || v in s[1..] by {
        assert s == [s[0]] + s[1..];
      }
      assert forall k :: 0 <= k < |t| ==> s[0] < t[k] by {
        forall k | 0 <= k < |t| ensures s[0] < t[k] {
          if t[k] != x {
            assert t[k] in t;
            var j :| 0 <= j < |s[1..]| && s[1..][j] == t[k];
            assert s[j + 1] == t[k];
          }
        }
      }
      [s[0]] + t
  }

  /** The distinct values of `s` in increasing order (`np.unique`, `Index.difference`). */
  function SortedUnique(s: seq<int>): (r: seq<int>)
    ensures Increasing(r)
    ensures forall v :: v in r <==> v in s
  {
    if |s| == 0 then []
    else
      assert forall v :: v in s <==> v in s[..|s| - 1] || v == s[|s| - 1] by {
        assert s == s[..|s| - 1] + [s[|s| - 1]];
      }
      Insert(SortedUnique(s[..|s| - 1]), s[|s| - 1])
  }

  lemma IncreasingNoDup(s: seq<int>)
    requires Increasing(s)
    ensures NoDup(s)
  {
  }

  /** Two increasing sequences with the same values are equal: a sorted unique
      index is determined by its set of values. */
  lemma {:induction false} IncreasingUnique(a: seq<int>, b: seq<int>)
    requires Increasing(a) && Increasing(b)
    requires Elems(a) == Elems(b)
    ensures a == b
  {
    if |a| > 0 { assert a[0] in Elems(b); }
    if |b| > 0 { assert b[0] in Elems(a); }
    if |a| > 0 && |b| > 0 {
      assert a[0] == b[0];
      assert Elems(a[1..]) == Elems(b[1..]) by {
        forall x | x in Elems(a[1..]) ensures x in Elems(b[1..]) {
          assert x in Elems(b);
          assert x != b[0];
        }
        forall x | x in Elems(b[1..]) ensures x in Elems(a[1..]) {
          assert x in Elems(a);
          assert x != a[0];
        }
      }
      IncreasingUnique(a[1..], b[1..]);
      assert a == [a[0]] + a[1..];
      assert b == [b[0]] + b[1..];
    }
  }

  /** The largest value of a non-empty column. */
  function Max(s: seq<int>): (m: int)
    requires |s| > 0
    ensures m in s
    ensures forall i :: 0 <= i < |s| ==> s[i] <= m
  {
    if |s| == 1 then s[0]
    else
      var m := Max(s[..|s| - 1]);
      assert forall i :: 0 <= i < |s| - 1 ==> s[i] == s[..|s| - 1][i];
      if s[|s| - 1] > m then s[|s| - 1] else m
  }

  /** Sum of a column of counts. */
  function Sum(s: seq<int>): int {
    if |s| == 0 then 0 else Sum(s[..|s| - 1]) + s[|s| - 1]
  }

  lemma {:induction false} SumAppend(a: seq<int>, b: seq<int>)
    ensures Sum(a + b) == Sum(a) + Sum(b)
  {
    if |b| > 0 {
      SumAppend(a, b[..|b| - 1]);
      assert (a + b)[..|a + b| - 1] == a + b[..|b| - 1];
    } else {
      assert a + b == a;
    }
  }

  /** A duplicate-free column holds each value at most once. */
  lemma {:induction false} NoDupCount<T>(s: seq<T>, x: T)
    requires NoDup(s)
    ensures multiset(s)[x] <= 1
  {
    if |s| > 0 {
      var t := s[..|s| - 1];
      assert s == t + [s[|s| - 1]];
      NoDupCount(t, x);
      assert s[|s| - 1] !in t;
    }
  }

  /** A duplicate-free column has as many distinct values as rows. */
  lemma {:induction false} NoDupCard<T>(s: seq<T>)
    requires NoDup(s)
    ensures |Elems(s)| == |s|
  {
    if |s| > 0 {
      var t := s[..|s| - 1];
      var x := s[|s| - 1];
      assert s == t + [x];
      NoDupCard(t);
      assert x !in t;
      assert Elems(s) == Elems(t) + {x};
    }
  }

  /** A duplicate-free column drawn from another duplicate-free column is no longer
      than it. */
  lemma NoDupSubLength<T>(a: seq<T>, b: seq<T>)
    requires NoDup(a) && NoDup(b) && Elems(a) <= Elems(b)
    ensures |a| <= |b|
  {
    NoDupCard(a);
    NoDupCard(b);
    var A := Elems(a);
    var B := Elems(b);
    assert B == A + (B - A);
    assert A * (B - A) == {};
  }

  /** Appending a value not yet in a duplicate-free column keeps it duplicate-free. */
  lemma NoDupSnoc<T>(s: seq<T>, x: T)
    requires NoDup(s) && x !in s
    ensures NoDup(s + [x]) && Elems(s + [x]) == Elems(s) + {x}
  {
    var t := s + [x];
    forall i, j | 0 <= i < j < |t| ensures t[i] != t[j] {
      if j == |s| {
        assert t[i] == s[i];
      }
    }
  }
}
