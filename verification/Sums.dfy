/** Sums of an integer-valued function over a finite set. */
module Sums {

  ghost function Sum<T(!new)>(s: set<T>, f: T -> int): int {
    if s == {} then 0 else
      var x :| x in s;
      f(x) + Sum(s - {x}, f)
  }

  /** The order in which elements are summed is immaterial. */
  lemma {:induction false} SumPick<T(!new)>(s: set<T>, f: T -> int, x: T)
    requires x in s
    ensures Sum(s, f) == f(x) + Sum(s - {x}, f)
    decreases s
  {
    var y :| y in s && Sum(s, f) == f(y) + Sum(s - {y}, f);
    if y != x {
      SumPick(s - {y}, f, x);
      SumPick(s - {x}, f, y);
      assert s - {x} - {y} == s - {y} - {x};
    }
  }

  lemma {:induction false} SumSame<T(!new)>(s: set<T>, f: T -> int, g: T -> int)
    requires forall x :: x in s ==> f(x) == g(x)
    ensures Sum(s, f) == Sum(s, g)
    decreases s
  {
    if s != {} {
      var x :| x in s;
      SumPick(s, f, x);
      SumPick(s, g, x);
      SumSame(s - {x}, f, g);
    }
  }

  /** What `g` adds to `f` at one point of the set. */
  ghost function Gain<T(!new)>(s: set<T>, f: T -> int, g: T -> int, x: T): int {
    if x in s then g(x) - f(x) else 0
  }

  /** Two functions that agree except at `a` and `b`. */
  lemma {:induction false} SumShift<T(!new)>(s: set<T>, f: T -> int, g: T -> int, a: T, b: T)
    requires a != b
    requires forall x :: x in s && x != a && x != b ==> f(x) == g(x)
    ensures Sum(s, g) == Sum(s, f) + Gain(s, f, g, a) + Gain(s, f, g, b)
  {
    var r := s - {a} - {b};
    SumSame(r, f, g);
    if b in s {
      assert b in s - {a};
      SumPick(s - {a}, f, b);
      SumPick(s - {a}, g, b);
    } else {
      assert s - {a} == r;
    }
    if a in s {
      SumPick(s, f, a);
      SumPick(s, g, a);
    } else {
      assert s - {a} == s;
    }
  }

  lemma {:induction false} SumSplit<T(!new)>(s: set<T>, t: set<T>, f: T -> int)
    requires t <= s
    ensures Sum(s, f) == Sum(t, f) + Sum(s - t, f)
    decreases t
  {
    if t == {} {
      assert s - t == s;
    } else {
      var x :| x in t;
      SumPick(s, f, x);
      SumPick(t, f, x);
      SumSplit(s - {x}, t - {x}, f);
      assert s - {x} - (t - {x}) == s - t;
    }
  }

  lemma OneMore(c: int, k: int)
    ensures c * (k + 1) == c * k + c
  {
  }

  lemma {:induction false} SumAtLeast<T(!new)>(s: set<T>, f: T -> int, c: int)
    requires forall x :: x in s ==> f(x) >= c
    ensures Sum(s, f) >= c * |s|
    decreases s
  {
    if s != {} {
      var x :| x in s;
      SumPick(s, f, x);
      SumAtLeast(s - {x}, f, c);
      assert |s| == |s - {x}| + 1;
      OneMore(c, |s - {x}|);
    }
  }

  lemma {:induction false} SumAtMost<T(!new)>(s: set<T>, f: T -> int, c: int)
    requires forall x :: x in s ==> f(x) <= c
    ensures Sum(s, f) <= c * |s|
    decreases s
  {
    if s != {} {
      var x :| x in s;
      SumPick(s, f, x);
      SumAtMost(s - {x}, f, c);
      assert |s| == |s - {x}| + 1;
      OneMore(c, |s - {x}|);
    }
  }

  /** A sum of non-negative terms is zero only when every term is. */
  lemma SumZero<T(!new)>(s: set<T>, f: T -> int)
    requires forall x :: x in s ==> f(x) >= 0
    ensures Sum(s, f) >= 0
    ensures Sum(s, f) == 0 <==> forall x :: x in s ==> f(x) == 0
  {
    SumAtLeast(s, f, 0);
    if forall x :: x in s ==> f(x) == 0 {
      SumAtMost(s, f, 0);
    } else {
      var x :| x in s && f(x) != 0;
      SumPick(s, f, x);
      SumAtLeast(s - {x}, f, 0);
    }
  }

  /** Two elements contribute at least their own terms to a non-negative sum. */
  lemma SumPair<T(!new)>(s: set<T>, f: T -> int, a: T, b: T)
    requires a in s && b in s && a != b
    requires forall x :: x in s ==> f(x) >= 0
    ensures Sum(s, f) >= f(a) + f(b)
  {
    SumPick(s, f, a);
    SumPick(s - {a}, f, b);
    SumAtLeast(s - {a} - {b}, f, 0);
  }

  /** Terms that are at most `c`, one of them less, sum to less than `c` for each. */
  lemma SumBelow<T(!new)>(s: set<T>, f: T -> int, c: int, x: T)
    requires x in s && f(x) < c && forall y :: y in s ==> f(y) <= c
    ensures Sum(s, f) < c * |s|
  {
    SumPick(s, f, x);
    SumAtMost(s - {x}, f, c);
    OneMore(c, |s - {x}|);
  }
}
