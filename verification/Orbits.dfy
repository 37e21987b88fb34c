/** Following pointers: a move takes a node to its successor or to NULL. On finitely many nodes
    a walk either comes to NULL within as many steps as there are nodes, or goes round for
    ever. */
module Orbits {
  import opened Base

  /** Where n moves from p lead; None is NULL and stays so. */
  function Iter<T>(f: T -> Option<T>, p: Option<T>, n: nat): Option<T> {
    if n == 0 then p
    else match Iter(f, p, n - 1)
      case None => None
      case Some(x) => f(x)
  }

  lemma {:induction false} IterAdd<T>(f: T -> Option<T>, p: Option<T>, m: nat, n: nat)
    ensures Iter(f, Iter(f, p, m), n) == Iter(f, p, m + n)
  {
    if n > 0 { IterAdd(f, p, m, n - 1); }
  }

  lemma {:induction false} NoneStays<T>(f: T -> Option<T>, p: Option<T>, m: nat, n: nat)
    requires m <= n && Iter(f, p, m) == None
    ensures Iter(f, p, n) == None
    decreases n
  {
    if m < n { NoneStays(f, p, m, n - 1); }
  }

  /** One move, then the rest. */
  lemma IterFirst<T>(f: T -> Option<T>, x: T, n: nat)
    ensures Iter(f, Some(x), n + 1) == Iter(f, f(x), n)
  {
    hide Iter;
    assert Iter(f, Some(x), 1) == f(x) by { IterOnce(f, x); }
    IterAdd(f, Some(x), 1, n);
  }

  lemma IterOnce<T>(f: T -> Option<T>, x: T)
    ensures Iter(f, Some(x), 0) == Some(x) && Iter(f, Some(x), 1) == f(x)
  {
  }

  /** Once a walk is where it has been before, it repeats itself. */
  lemma {:induction false} Repeats<T>(f: T -> Option<T>, p: Option<T>, i: nat, period: nat, m: nat, k: nat)
    requires Iter(f, p, i) == Iter(f, p, i + period) && m >= i
    ensures Iter(f, p, m) == Iter(f, p, m + k * period)
    decreases k
  {
    hide Iter;
    if k == 0 {
      assert 0 * period == 0;
    } else {
      Repeats(f, p, i, period, m, k - 1);
      var at := m + (k - 1) * period;
      assert at - i >= 0 by { assert (k - 1) * period >= 0; }
      IterAdd(f, p, i, at - i);
      IterAdd(f, p, i + period, at - i);
      assert at + period == m + k * period by { assert (k - 1) * period + period == k * period; }
    }
  }

  /** And then it never comes to NULL. */
  lemma RoundForEver<T>(f: T -> Option<T>, p: Option<T>, i: nat, j: nat, n: nat)
    requires i < j && Iter(f, p, i) == Iter(f, p, j) && Iter(f, p, i).Some?
    ensures Iter(f, p, n).Some?
  {
    hide Iter;
    if Iter(f, p, n) == None {
      Repeats(f, p, i, j - i, i, n);
      AtLeast(n, j - i);
      NoneStays(f, p, n, i + n * (j - i));
      assert false;
    }
  }

  lemma AtLeast(n: nat, k: nat)
    requires k > 0
    ensures n * k >= n
  {
    assert n * (k - 1) >= 0 && n * k == n * (k - 1) + n;
  }

  /** A list without repetition fits into any list that holds all its elements. */
  lemma {:induction false} Pigeonhole<T>(s: seq<T>, all: seq<T>)
    requires Distinct(s) && forall x :: x in s ==> x in all
    ensures |s| <= |all|
  {
    if s != [] {
      assert s[0] in all;
      var k :| 0 <= k < |all| && all[k] == s[0];
      var rest := all[..k] + all[k + 1..];
      forall x | x in s[1..] ensures x in rest {
        var i :| 0 <= i < |s| - 1 && s[1..][i] == x;
        assert s[i + 1] == x && x != s[0];
        assert x in all;
        var j :| 0 <= j < |all| && all[j] == x;
        assert x == if j < k then rest[j] else rest[j - 1];
      }
      Pigeonhole(s[1..], rest);
    }
  }

  /** No move leaves the list. */
  ghost predicate Closed<T(!new)>(f: T -> Option<T>, all: seq<T>) {
    forall x :: x in all && f(x).Some? ==> f(x).value in all
  }

  lemma {:induction false} StaysIn<T(!new)>(f: T -> Option<T>, x: T, all: seq<T>, n: nat)
    requires Closed(f, all) && x in all
    ensures Iter(f, Some(x), n).Some? ==> Iter(f, Some(x), n).value in all
  {
    if n > 0 { StaysIn(f, x, all, n - 1); }
  }

  /** The walk from x meets some node twice. */
  ghost predicate Recurs<T(!new)>(f: T -> Option<T>, x: T) {
    exists i: nat, j: nat :: i < j && Iter(f, Some(x), i).Some? && Iter(f, Some(x), i) == Iter(f, Some(x), j)
  }

  /** A walk that has not ended after as many moves as there are nodes has met a node twice. */
  lemma LongRecurs<T(!new)>(f: T -> Option<T>, x: T, all: seq<T>) returns (i: nat, j: nat)
    requires Closed(f, all) && x in all && Iter(f, Some(x), |all|).Some?
    ensures i < j && Iter(f, Some(x), i).Some? && Iter(f, Some(x), i) == Iter(f, Some(x), j)
  {
    hide Iter, Closed;
    var n := |all|;
    forall k | 0 <= k <= n ensures Iter(f, Some(x), k).Some? && Iter(f, Some(x), k).value in all {
      if Iter(f, Some(x), k) == None { NoneStays(f, Some(x), k, n); }
      StaysIn(f, x, all, k);
    }
    var path := seq(n + 1, k requires 0 <= k <= n => Iter(f, Some(x), k).value);
    if Distinct(path) { Pigeonhole(path, all); }
    i, j :| 0 <= i < j <= n && path[i] == path[j];
  }

  /** On finitely many nodes a walk ends, and then within as many moves as there are nodes, if
      and only if it meets no node twice. */
  lemma EndsIffNoRecurrence<T(!new)>(f: T -> Option<T>, x: T, all: seq<T>)
    requires Closed(f, all) && x in all
    ensures Iter(f, Some(x), |all|) == None <==> !Recurs(f, x)
    ensures (exists n: nat :: Iter(f, Some(x), n) == None) <==> !Recurs(f, x)
  {
    hide Iter, Closed;
    if Recurs(f, x) {
      var i: nat, j: nat :| i < j && Iter(f, Some(x), i).Some? && Iter(f, Some(x), i) == Iter(f, Some(x), j);
      forall n: nat ensures Iter(f, Some(x), n).Some? { RoundForEver(f, Some(x), i, j, n); }
    } else if Iter(f, Some(x), |all|).Some? {
      var i, j := LongRecurs(f, x, all);
      assert false;
    }
  }
}
