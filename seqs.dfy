/** `Array.prototype.filter` over sequences, and what it promises. */
module Seqs {

  /** The elements of `s` for which `keep` holds, in their original order. */
  function Filter<T>(s: seq<T>, keep: T -> bool): (r: seq<T>)
    ensures |r| <= |s|
  {
    if s == [] then [] else (if keep(s[0]) then [s[0]] else []) + Filter(s[1..], keep)
  }

  /** `xs` is obtained from `ys` by deleting elements: order kept, nothing added. */
  predicate IsSubsequence<T(==)>(xs: seq<T>, ys: seq<T>) {
    || xs == []
    || (&& ys != []
        && ((xs[0] == ys[0] && IsSubsequence(xs[1..], ys[1..])) || IsSubsequence(xs, ys[1..])))
  }

  lemma {:induction false} FilterIsSubsequence<T>(s: seq<T>, keep: T -> bool)
    ensures IsSubsequence(Filter(s, keep), s)
  {
    if s != [] {
      FilterIsSubsequence(s[1..], keep);
      var r := Filter(s, keep);
      if keep(s[0]) {
        assert r[0] == s[0] && r[1..] == Filter(s[1..], keep);
      } else {
        assert r == Filter(s[1..], keep);
      }
    }
  }

  /** Each value occurs in the result as often as in `s` if it is kept, and not at all otherwise. */
  lemma {:induction false} FilterCount<T>(s: seq<T>, keep: T -> bool, x: T)
    ensures multiset(Filter(s, keep))[x] == if keep(x) then multiset(s)[x] else 0
  {
    if s != [] {
      FilterCount(s[1..], keep, x);
      assert s == [s[0]] + s[1..];
      assert multiset(s) == multiset([s[0]]) + multiset(s[1..]);
    }
  }

  /** FilterCount, for every value at once. */
  lemma FilterCounts<T>(s: seq<T>, keep: T -> bool)
    ensures forall x :: multiset(Filter(s, keep))[x] == if keep(x) then multiset(s)[x] else 0
  {
    forall x
      ensures multiset(Filter(s, keep))[x] == if keep(x) then multiset(s)[x] else 0
    {
      FilterCount(s, keep, x);
    }
  }

  /** A value is in the result exactly when it is in `s` and kept. */
  lemma FilterMembership<T>(s: seq<T>, keep: T -> bool)
    ensures forall x :: x in Filter(s, keep) <==> x in s && keep(x)
  {
  }

  /** When every element is kept, filtering returns `s` itself. */
  lemma {:induction false} FilterKeepsAll<T>(s: seq<T>, keep: T -> bool)
    requires forall i :: 0 <= i < |s| ==> keep(s[i])
    ensures Filter(s, keep) == s
  {
    if s != [] {
      FilterKeepsAll(s[1..], keep);
    }
  }

  /** The result has one element exactly when exactly one position of `s` is kept. */
  lemma {:induction false} FilterSingleton<T>(s: seq<T>, keep: T -> bool, x: T)
    ensures Filter(s, keep) == [x] <==>
            exists i :: 0 <= i < |s| && s[i] == x && keep(x) &&
                        forall j :: 0 <= j < |s| && j != i ==> !keep(s[j])
  {
    if s == [] {
    } else {
      var rest := Filter(s[1..], keep);
      FilterSingleton(s[1..], keep, x);
      if keep(s[0]) {
        assert Filter(s, keep) == [s[0]] + rest;
        if Filter(s, keep) == [x] {
          assert ([s[0]] + rest)[0] == s[0] && [x][0] == x;
          assert x == s[0] && |rest| == 0;
          FilterNoneKept(s[1..], keep);
          assert forall j :: 0 < j < |s| ==> !keep(s[j]) by {
            forall j | 0 < j < |s| ensures !keep(s[j]) {
              assert s[j] == s[1..][j - 1];
            }
          }
        } else {
          if exists i :: 0 <= i < |s| && s[i] == x && keep(x) &&
                         forall j :: 0 <= j < |s| && j != i ==> !keep(s[j]) {
            var i :| 0 <= i < |s| && s[i] == x && keep(x) &&
                     forall j :: 0 <= j < |s| && j != i ==> !keep(s[j]);
            assert i == 0;
            FilterNoneKept(s[1..], keep);
            assert false;
          }
        }
      } else {
        assert Filter(s, keep) == rest;
        if rest == [x] {
          var i :| 0 <= i < |s[1..]| && s[1..][i] == x && keep(x) &&
                   forall j :: 0 <= j < |s[1..]| && j != i ==> !keep(s[1..][j]);
          forall j | 0 <= j < |s| && j != i + 1 ensures !keep(s[j]) {
            if j > 0 { assert s[j] == s[1..][j - 1]; }
          }
        } else {
          if exists i :: 0 <= i < |s| && s[i] == x && keep(x) &&
                         forall j :: 0 <= j < |s| && j != i ==> !keep(s[j]) {
            var i :| 0 <= i < |s| && s[i] == x && keep(x) &&
                     forall j :: 0 <= j < |s| && j != i ==> !keep(s[j]);
            assert i > 0;
            forall j | 0 <= j < |s[1..]| && j != i - 1 ensures !keep(s[1..][j]) {
              assert s[1..][j] == s[j + 1];
            }
            assert false;
          }
        }
      }
    }
  }

  /** The result is empty exactly when no position is kept. */
  lemma {:induction false} FilterNoneKept<T>(s: seq<T>, keep: T -> bool)
    ensures Filter(s, keep) == [] <==> forall i :: 0 <= i < |s| ==> !keep(s[i])
  {
    if s != [] {
      FilterNoneKept(s[1..], keep);
      if !keep(s[0]) && Filter(s[1..], keep) == [] {
        forall i | 0 < i < |s| ensures !keep(s[i]) {
          assert s[i] == s[1..][i - 1];
        }
      }
    }
  }
}
