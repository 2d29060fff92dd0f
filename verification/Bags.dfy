/** Lists whose order does not matter: what the calculators take from a list of bands depends only on which
    bands are in it. */
module Bags {
  function Least(s: seq<real>): real
    requires s != []
    decreases |s|
  {
    if |s| == 1 then s[0]
    else
      var rest := Least(s[1..]);
      if s[0] <= rest then s[0] else rest
  }

  function LeastOrZero(s: seq<real>): real {
    if s == [] then 0.0 else Least(s)
  }

  function Sum(s: seq<real>): real
    decreases |s|
  {
    if s == [] then 0.0 else s[0] + Sum(s[1..])
  }

  /** What `f` finds in each element, in the list's order. */
  function Gather<T, U>(xs: seq<T>, f: T -> seq<U>): seq<U>
    decreases |xs|
  {
    if xs == [] then [] else f(xs[0]) + Gather(xs[1..], f)
  }

  lemma {:induction false} LeastIsLeast(s: seq<real>)
    requires s != []
    ensures Least(s) in s && forall x :: x in s ==> Least(s) <= x
    decreases |s|
  {
    if |s| > 1 {
      LeastIsLeast(s[1..]);
      assert s == [s[0]] + s[1..];
    }
  }

  lemma SameLeast(a: seq<real>, b: seq<real>)
    requires a != [] && multiset(a) == multiset(b)
    ensures b != [] && Least(a) == Least(b)
  {
    assert a[0] in multiset(b);
    LeastIsLeast(a);
    LeastIsLeast(b);
    assert Least(a) in multiset(a) && Least(b) in multiset(b);
    assert Least(a) in b && Least(b) in a;
  }

  lemma SameLeastOrZero(a: seq<real>, b: seq<real>)
    requires multiset(a) == multiset(b)
    ensures (a == [] <==> b == []) && LeastOrZero(a) == LeastOrZero(b)
  {
    assert |a| == |multiset(a)| && |b| == |multiset(b)|;
    if a != [] {
      SameLeast(a, b);
    }
  }

  /** A sequence without its k-th element. */
  function Without<T>(s: seq<T>, k: nat): seq<T>
    requires k < |s|
  {
    s[..k] + s[k + 1..]
  }

  lemma WithoutCount<T>(s: seq<T>, k: nat)
    requires k < |s|
    ensures multiset(Without(s, k)) == multiset(s) - multiset{s[k]}
  {
    assert s == s[..k] + [s[k]] + s[k + 1..];
  }

  lemma {:induction false} SumWithout(s: seq<real>, k: nat)
    requires k < |s|
    ensures Sum(s) == s[k] + Sum(Without(s, k))
    decreases k
  {
    if k == 0 {
      assert Without(s, 0) == s[1..];
    } else {
      SumWithout(s[1..], k - 1);
      assert Without(s, k)[1..] == Without(s[1..], k - 1);
    }
  }

  lemma {:induction false} SameSum(a: seq<real>, b: seq<real>)
    requires multiset(a) == multiset(b)
    ensures Sum(a) == Sum(b)
    decreases |a|
  {
    if a == [] {
      assert |b| == |multiset(b)| == 0;
    } else {
      assert a[0] in multiset(b);
      var k :| 0 <= k < |b| && b[k] == a[0];
      WithoutCount(a, 0);
      WithoutCount(b, k);
      assert Without(a, 0) == a[1..];
      SumWithout(b, k);
      SameSum(a[1..], Without(b, k));
    }
  }

  lemma {:induction false} GatherWithout<T, U>(xs: seq<T>, k: nat, f: T -> seq<U>)
    requires k < |xs|
    ensures multiset(Gather(xs, f)) == multiset(f(xs[k])) + multiset(Gather(Without(xs, k), f))
    decreases k
  {
    var rest := Without(xs, k);
    if k == 0 {
      assert rest == xs[1..];
    } else {
      GatherWithout(xs[1..], k - 1, f);
      assert rest[1..] == Without(xs[1..], k - 1) && rest[0] == xs[0];
      assert Gather(rest, f) == f(xs[0]) + Gather(Without(xs[1..], k - 1), f);
    }
  }

  /** The same elements gather the same finds. */
  lemma {:induction false} SameGather<T, U>(a: seq<T>, b: seq<T>, f: T -> seq<U>)
    requires multiset(a) == multiset(b)
    ensures multiset(Gather(a, f)) == multiset(Gather(b, f))
    decreases |a|
  {
    if a == [] {
      assert |b| == |multiset(b)| == 0;
    } else {
      assert a[0] in multiset(b);
      var k :| 0 <= k < |b| && b[k] == a[0];
      WithoutCount(a, 0);
      WithoutCount(b, k);
      assert Without(a, 0) == a[1..];
      GatherWithout(b, k, f);
      SameGather(a[1..], Without(b, k), f);
    }
  }

  /** What every element counts for, added up. */
  function SumOver<T>(xs: seq<T>, worth: T -> real): real
    decreases |xs|
  {
    if xs == [] then 0.0 else worth(xs[0]) + SumOver(xs[1..], worth)
  }

  /** Adding up what is found is adding up what each element counts for, when it counts for what is found in it. */
  lemma {:induction false} SumOfGathered<T>(xs: seq<T>, find: T -> seq<real>, worth: T -> real)
    requires forall x :: find(x) == if find(x) == [] then [] else [worth(x)]
    requires forall x :: find(x) == [] ==> worth(x) == 0.0
    ensures Sum(Gather(xs, find)) == SumOver(xs, worth)
    decreases |xs|
  {
    if xs != [] {
      SumOfGathered(xs[1..], find, worth);
      var rest := Gather(xs[1..], find);
      if find(xs[0]) == [] {
        assert [] + rest == rest;
      } else {
        assert ([worth(xs[0])] + rest)[1..] == rest;
      }
    }
  }

  lemma {:induction false} GatherMembers<T, U>(xs: seq<T>, f: T -> seq<U>, y: U)
    ensures y in Gather(xs, f) <==> exists x :: x in xs && y in f(x)
    decreases |xs|
  {
    if xs != [] {
      GatherMembers(xs[1..], f, y);
      assert xs == [xs[0]] + xs[1..];
    }
  }
}
