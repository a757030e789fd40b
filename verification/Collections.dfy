/**
 Counting, filtering and rewriting of sequences: the three things SQL's
 COUNT, DELETE/WHERE and UPDATE do to a table.
 */
module Collections {

  function Count<T>(s: seq<T>, p: T -> bool): nat {
    if s == [] then 0 else (if p(s[0]) then 1 else 0) + Count(s[1..], p)
  }

  function Filter<T>(s: seq<T>, p: T -> bool): (r: seq<T>)
    ensures |r| <= |s|
    ensures forall x | x in r :: x in s && p(x)
    ensures forall x | x in s && p(x) :: x in r
  {
    if s == [] then [] else (if p(s[0]) then [s[0]] else []) + Filter(s[1..], p)
  }

  function Map<T, U>(s: seq<T>, f: T -> U): (r: seq<U>)
    ensures |r| == |s|
    ensures forall i | 0 <= i < |s| :: r[i] == f(s[i])
  {
    seq(|s|, i requires 0 <= i < |s| => f(s[i]))
  }

  predicate Distinct<T(==)>(s: seq<T>) {
    forall i, j | 0 <= i < j < |s| :: s[i] != s[j]
  }

  lemma {:induction false} DistinctSize<T(!new)>(s: seq<T>, elements: set<T>)
    requires Distinct(s) && forall x :: x in s <==> x in elements
    ensures |s| == |elements|
  {
    if s == [] {
      assert elements == {};
    } else {
      assert s[0] in s;
      assert forall x | x in elements && x != s[0] :: x in s[1..];
      DistinctSize(s[1..], elements - {s[0]});
    }
  }

  lemma {:induction false} CountConcat<T>(a: seq<T>, b: seq<T>, p: T -> bool)
    ensures Count(a + b, p) == Count(a, p) + Count(b, p)
  {
    if a == [] {
      assert a + b == b;
    } else {
      assert (a + b)[1..] == a[1..] + b;
      CountConcat(a[1..], b, p);
    }
  }

  lemma CountAppend<T>(s: seq<T>, x: T, p: T -> bool)
    ensures Count(s + [x], p) == Count(s, p) + if p(x) then 1 else 0
  {
    CountConcat(s, [x], p);
  }

  lemma {:induction false} CountAtMostLength<T>(s: seq<T>, p: T -> bool)
    ensures Count(s, p) <= |s|
  {
    if s == [] {
    } else {
      CountAtMostLength(s[1..], p);
    }
  }

  lemma {:induction false} CountAll<T>(s: seq<T>, p: T -> bool)
    requires forall x | x in s :: p(x)
    ensures Count(s, p) == |s|
  {
    if s == [] {
    } else {
      CountAll(s[1..], p);
    }
  }

  /** A property of exactly the first `n` elements. */
  lemma {:induction false} CountPrefix<T>(s: seq<T>, n: nat, p: T -> bool)
    requires n <= |s|
    requires forall j | 0 <= j < |s| :: p(s[j]) <==> j < n
    ensures Count(s, p) == n
  {
    if s == [] {
    } else {
      assert forall j | 0 <= j < |s[1..]| :: s[1..][j] == s[j + 1];
      CountPrefix(s[1..], if n == 0 then 0 else n - 1, p);
    }
  }

  lemma {:induction false} CountZero<T>(s: seq<T>, p: T -> bool)
    ensures Count(s, p) == 0 <==> forall x | x in s :: !p(x)
  {
    if s == [] {
    } else {
      CountZero(s[1..], p);
    }
  }

  /** Replacing position `i` changes the count by what left and what arrived. */
  lemma {:induction false} CountReplace<T>(s: seq<T>, i: nat, x: T, p: T -> bool)
    requires i < |s|
    ensures Count(s[i := x], p) + (if p(s[i]) then 1 else 0) == Count(s, p) + if p(x) then 1 else 0
  {
    if i > 0 {
      assert s[i := x][1..] == s[1..][i - 1 := x];
      CountReplace(s[1..], i - 1, x, p);
    } else {
      assert s[0 := x][1..] == s[1..];
    }
  }

  lemma {:induction false} CountImplied<T>(s: seq<T>, p: T -> bool, q: T -> bool)
    requires forall x | x in s && p(x) :: q(x)
    ensures Count(s, p) <= Count(s, q)
  {
    if s == [] {
    } else {
      CountImplied(s[1..], p, q);
    }
  }

  lemma CountSame<T>(s: seq<T>, p: T -> bool, q: T -> bool)
    requires forall x | x in s :: p(x) == q(x)
    ensures Count(s, p) == Count(s, q)
  {
    CountImplied(s, p, q);
    CountImplied(s, q, p);
  }

  /** Two properties that exclude each other partition the rows having either. */
  lemma {:induction false} CountSplit<T>(s: seq<T>, p: T -> bool, q: T -> bool, either: T -> bool)
    requires forall x | x in s :: either(x) == (p(x) || q(x)) && !(p(x) && q(x))
    ensures Count(s, either) == Count(s, p) + Count(s, q)
  {
    if s == [] {
    } else {
      CountSplit(s[1..], p, q, either);
    }
  }

  /** Counting after an UPDATE is counting what the UPDATE turns into `p`. */
  lemma {:induction false} CountMap<T, U>(s: seq<T>, f: T -> U, p: U -> bool, q: T -> bool)
    requires forall x | x in s :: q(x) == p(f(x))
    ensures Count(Map(s, f), p) == Count(s, q)
  {
    if s == [] {
    } else {
      assert Map(s, f)[1..] == Map(s[1..], f);
      CountMap(s[1..], f, p, q);
    }
  }

  /** An UPDATE that never creates a `p` row does not raise the count. */
  lemma {:induction false} CountMapAtMost<T>(s: seq<T>, f: T -> T, p: T -> bool)
    requires forall x | x in s && p(f(x)) :: p(x)
    ensures Count(Map(s, f), p) <= Count(s, p)
  {
    if s == [] {
    } else {
      assert Map(s, f)[1..] == Map(s[1..], f);
      CountMapAtMost(s[1..], f, p);
    }
  }

  lemma {:induction false} CountFilter<T>(s: seq<T>, keep: T -> bool, p: T -> bool, both: T -> bool)
    requires forall x | x in s :: both(x) == (keep(x) && p(x))
    ensures Count(Filter(s, keep), p) == Count(s, both)
  {
    if s == [] {
    } else {
      CountFilter(s[1..], keep, p, both);
      CountConcat(if keep(s[0]) then [s[0]] else [], Filter(s[1..], keep), p);
    }
  }

  lemma {:induction false} CountFilterAtMost<T>(s: seq<T>, keep: T -> bool, p: T -> bool)
    ensures Count(Filter(s, keep), p) <= Count(s, p)
  {
    if s == [] {
    } else {
      CountFilterAtMost(s[1..], keep, p);
      CountConcat(if keep(s[0]) then [s[0]] else [], Filter(s[1..], keep), p);
    }
  }

  lemma {:induction false} FilterLength<T>(s: seq<T>, p: T -> bool)
    ensures |Filter(s, p)| == Count(s, p)
  {
    if s == [] {
    } else {
      FilterLength(s[1..], p);
    }
  }

  lemma {:induction false} FilterAll<T>(s: seq<T>, p: T -> bool)
    requires forall x | x in s :: p(x)
    ensures Filter(s, p) == s
  {
    if s == [] {
    } else {
      FilterAll(s[1..], p);
    }
  }

  lemma {:induction false} FilterSame<T>(s: seq<T>, p: T -> bool, q: T -> bool)
    requires forall x | x in s :: p(x) == q(x)
    ensures Filter(s, p) == Filter(s, q)
  {
    if s == [] {
    } else {
      FilterSame(s[1..], p, q);
    }
  }

  lemma FilterHead<T>(x: T, rest: seq<T>, p: T -> bool)
    ensures Filter([x] + rest, p) == if p(x) then [x] + Filter(rest, p) else Filter(rest, p)
  {
    assert ([x] + rest)[1..] == rest;
  }

  /** Two WHEREs are one. */
  lemma {:induction false} FilterTwice<T>(s: seq<T>, p: T -> bool, q: T -> bool, both: T -> bool)
    requires forall x | x in s :: both(x) == (p(x) && q(x))
    ensures Filter(Filter(s, p), q) == Filter(s, both)
  {
    if s == [] {
    } else {
      var x, rest := s[0], s[1..];
      FilterTwice(rest, p, q, both);
      assert s == [x] + rest;
      FilterHead(x, rest, p);
      FilterHead(x, rest, both);
      FilterHead(x, Filter(rest, p), q);
    }
  }

  function Without<T>(s: seq<T>, i: nat): seq<T>
    requires i < |s|
  {
    s[..i] + s[i + 1..]
  }

  lemma {:induction false} WithoutCounts<T>(s: seq<T>, i: nat, p: T -> bool)
    requires i < |s|
    ensures Count(s, p) == Count(Without(s, i), p) + if p(s[i]) then 1 else 0
  {
    if i == 0 {
      assert Without(s, 0) == s[1..];
    } else {
      WithoutCounts(s[1..], i - 1, p);
      assert Without(s, i)[1..] == Without(s[1..], i - 1);
    }
  }

  lemma WithoutElements<T>(s: seq<T>, i: nat)
    requires i < |s|
    ensures multiset(s) == multiset(Without(s, i)) + multiset{s[i]}
  {
    assert s == s[..i] + [s[i]] + s[i + 1..];
  }

  /** Counting does not depend on the order rows are stored in. */
  lemma {:induction false} CountPermuted<T>(a: seq<T>, b: seq<T>, p: T -> bool)
    requires multiset(a) == multiset(b)
    ensures Count(a, p) == Count(b, p)
  {
    if a == [] {
      assert |multiset(b)| == 0;
    } else {
      assert a[0] in multiset(b);
      var i :| 0 <= i < |b| && b[i] == a[0];
      WithoutElements(a, 0);
      WithoutElements(b, i);
      assert Without(a, 0) == a[1..];
      PermutedRest(multiset(a[1..]), multiset(Without(b, i)), a[0]);
      CountPermuted(a[1..], Without(b, i), p);
      WithoutCounts(b, i, p);
    }
  }

  lemma PermutedRest<T>(a: multiset<T>, b: multiset<T>, x: T)
    requires a + multiset{x} == b + multiset{x}
    ensures a == b
  {
    assert a == a + multiset{x} - multiset{x};
    assert b == b + multiset{x} - multiset{x};
  }
}
