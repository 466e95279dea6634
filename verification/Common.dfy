/** Definitions shared by the models: an optional value, extrema, and Python's stable `sorted`. */
module Common {

  datatype Option<+T> = None | Some(value: T)

  function Max(a: int, b: int): int {
    if a >= b then a else b
  }

  function Min(a: int, b: int): int {
    if a <= b then a else b
  }

  /** `ceil(a / b)` for a non-negative dividend. */
  function CeilDiv(a: nat, b: nat): nat
    requires b > 0
  {
    (a + b - 1) / b
  }

  function Filter<T(!new)>(s: seq<T>, p: T -> bool): (r: seq<T>)
    ensures forall x :: x in r <==> x in s && p(x)
  {
    if s == [] then []
    else if p(s[0]) then [s[0]] + Filter(s[1..], p)
    else Filter(s[1..], p)
  }

  lemma {:induction false} FilterKeeps<T(!new)>(s: seq<T>, p: T -> bool)
    ensures multiset(Filter(s, p)) <= multiset(s)
  {
    if s != [] {
      assert s == [s[0]] + s[1..];
      FilterKeeps(s[1..], p);
    }
  }

  lemma {:induction false} FilterCounts<T(!new)>(s: seq<T>, p: T -> bool, x: T)
    requires p(x)
    ensures multiset(Filter(s, p))[x] == multiset(s)[x]
  {
    if s != [] {
      assert s == [s[0]] + s[1..];
      FilterCounts(s[1..], p, x);
    }
  }

  lemma {:induction false} FilterConcat<T(!new)>(a: seq<T>, b: seq<T>, p: T -> bool)
    ensures Filter(a + b, p) == Filter(a, p) + Filter(b, p)
  {
    if a == [] {
      assert a + b == b;
    } else {
      assert (a + b)[1..] == a[1..] + b;
      FilterConcat(a[1..], b, p);
    }
  }

  lemma {:induction false} FilterAll<T(!new)>(a: seq<T>, p: T -> bool)
    requires forall c :: c in a ==> p(c)
    ensures Filter(a, p) == a
  {
    if a != [] {
      assert a[0] in a;
      FilterAll(a[1..], p);
    }
  }

  lemma {:induction false} FilterNone<T(!new)>(a: seq<T>, p: T -> bool)
    requires forall c :: c in a ==> !p(c)
    ensures Filter(a, p) == []
  {
    if a != [] {
      assert a[0] in a;
      FilterNone(a[1..], p);
    }
  }

  lemma FilterOne<T(!new)>(c: T, p: T -> bool)
    ensures Filter([c], p) == if p(c) then [c] else []
  {
    assert [c][1..] == [];
  }

  lemma {:induction false} FilterSame<T(!new)>(s: seq<T>, p: T -> bool, q: T -> bool)
    requires forall x :: x in s ==> p(x) == q(x)
    ensures Filter(s, p) == Filter(s, q)
  {
    if s != [] {
      assert s[0] in s;
      FilterSame(s[1..], p, q);
    }
  }

  lemma {:induction false} FilterDistinct<T(!new)>(s: seq<T>, p: T -> bool)
    requires forall i, j :: 0 <= i < j < |s| ==> s[i] != s[j]
    ensures forall i, j :: 0 <= i < j < |Filter(s, p)| ==> Filter(s, p)[i] != Filter(s, p)[j]
  {
    if s != [] {
      FilterDistinct(s[1..], p);
      var rest := Filter(s[1..], p);
      forall j | 0 <= j < |rest| ensures rest[j] != s[0] {
        assert rest[j] in s[1..];
      }
    }
  }

  // ---- Subsequences ----

  /** `a` arises from `b` by leaving out elements. */
  ghost predicate IsSubsequence<T>(a: seq<T>, b: seq<T>) {
    a == [] || (b != [] && ((a[0] == b[0] && IsSubsequence(a[1..], b[1..])) || IsSubsequence(a, b[1..])))
  }

  lemma {:induction false} SubsequenceTakes<T>(a: seq<T>, b: seq<T>)
    requires IsSubsequence(a, b)
    ensures multiset(a) <= multiset(b)
  {
    if a != [] {
      assert b == [b[0]] + b[1..];
      if a[0] == b[0] && IsSubsequence(a[1..], b[1..]) {
        assert a == [a[0]] + a[1..];
        SubsequenceTakes(a[1..], b[1..]);
      } else {
        SubsequenceTakes(a, b[1..]);
      }
    }
  }

  lemma {:induction false} SubsequenceFilter<T(!new)>(a: seq<T>, b: seq<T>, p: T -> bool)
    requires IsSubsequence(a, b)
    ensures IsSubsequence(Filter(a, p), Filter(b, p))
  {
    if a != [] {
      if a[0] == b[0] && IsSubsequence(a[1..], b[1..]) {
        SubsequenceFilter(a[1..], b[1..], p);
      } else {
        SubsequenceFilter(a, b[1..], p);
      }
    }
  }

  // ---- Python's `sorted`, which is stable ----

  /** Ascending by `key`; elements with equal keys keep their order. */
  function SortedBy<T(!new)>(s: seq<T>, key: T -> int): (r: seq<T>)
    ensures |r| == |s|
    ensures forall x :: x in r <==> x in s
    ensures forall i, j :: 0 <= i < j < |r| ==> key(r[i]) <= key(r[j])
  {
    if s == [] then [] else InsertBy(s[0], SortedBy(s[1..], key), key)
  }

  function InsertBy<T(!new)>(x: T, s: seq<T>, key: T -> int): (r: seq<T>)
    requires forall i, j :: 0 <= i < j < |s| ==> key(s[i]) <= key(s[j])
    ensures |r| == |s| + 1
    ensures forall y :: y in r <==> y == x || y in s
    ensures forall i, j :: 0 <= i < j < |r| ==> key(r[i]) <= key(r[j])
  {
    if s == [] then [x]
    else if key(x) <= key(s[0]) then [x] + s
    else
      var rest := InsertBy(x, s[1..], key);
      assert forall i :: 0 <= i < |rest| ==> rest[i] == x || rest[i] in s[1..];
      [s[0]] + rest
  }

  lemma {:induction false} InsertByAdds<T(!new)>(x: T, s: seq<T>, key: T -> int)
    requires forall i, j :: 0 <= i < j < |s| ==> key(s[i]) <= key(s[j])
    ensures multiset(InsertBy(x, s, key)) == multiset{x} + multiset(s)
  {
    if s != [] {
      assert s == [s[0]] + s[1..];
      if key(x) > key(s[0]) {
        InsertByAdds(x, s[1..], key);
      }
    }
  }

  lemma {:induction false} SortedByPermutes<T(!new)>(s: seq<T>, key: T -> int)
    ensures multiset(SortedBy(s, key)) == multiset(s)
  {
    if s != [] {
      SortedByPermutes(s[1..], key);
      InsertByAdds(s[0], SortedBy(s[1..], key), key);
      assert s == [s[0]] + s[1..];
    }
  }

  lemma {:induction false} InsertByIsStable<T(!new)>(x: T, s: seq<T>, key: T -> int, c: int, p: T -> bool)
    requires forall i, j :: 0 <= i < j < |s| ==> key(s[i]) <= key(s[j])
    requires forall y :: p(y) <==> key(y) == c
    ensures Filter(InsertBy(x, s, key), p) == (if p(x) then [x] else []) + Filter(s, p)
  {
    if s == [] {
      assert [x][1..] == [];
    } else if key(x) <= key(s[0]) {
      assert ([x] + s)[1..] == s;
    } else {
      InsertByIsStable(x, s[1..], key, c, p);
      assert ([s[0]] + InsertBy(x, s[1..], key))[1..] == InsertBy(x, s[1..], key);
    }
  }

  /** The elements of one key keep their order. */
  lemma {:induction false} SortedByIsStable<T(!new)>(s: seq<T>, key: T -> int, c: int, p: T -> bool)
    requires forall y :: p(y) <==> key(y) == c
    ensures Filter(SortedBy(s, key), p) == Filter(s, p)
  {
    if s != [] {
      SortedByIsStable(s[1..], key, c, p);
      InsertByIsStable(s[0], SortedBy(s[1..], key), key, c, p);
    }
  }

  // ---- Host names ----

  /** `name.split(".")[0]`. */
  function Short(name: string): string {
    if name == "" || name[0] == '.' then "" else [name[0]] + Short(name[1..])
  }

  lemma {:induction false} ShortHasNoDot(name: string)
    ensures '.' !in Short(name)
  {
    if name != "" && name[0] != '.' {
      ShortHasNoDot(name[1..]);
    }
  }

  /** A dot-free prefix that ends the name or is followed by a dot is the short name. */
  lemma {:induction false} ShortIs(name: string, r: string)
    requires '.' !in r && r <= name && (r == name || (|r| < |name| && name[|r|] == '.'))
    ensures Short(name) == r
  {
    if r == "" {
    } else {
      assert name[0] == r[0];
      ShortIs(name[1..], r[1..]);
    }
  }
}
