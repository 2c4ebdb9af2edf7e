/** Sizes of finite sets. */
module Cardinality {
  // An injective image keeps the size.
  lemma {:induction false} ImageSize<X, Y>(xs: set<X>, f: X --> Y, ys: set<Y>)
    requires forall x | x in xs :: f.requires(x)
    requires forall x, x' | x in xs && x' in xs && f(x) == f(x') :: x == x'
    requires ys == set x | x in xs :: f(x)
    ensures |ys| == |xs|
    decreases |xs|
  {
    if xs == {} {
    } else {
      var x :| x in xs;
      var rest := set x' | x' in xs - {x} :: f(x');
      assert f(x) !in rest && ys == rest + {f(x)};
      ImageSize(xs - {x}, f, rest);
    }
  }

  lemma {:induction false} DistinctCount<T>(s: seq<T>)
    requires forall i, j | 0 <= i < j < |s| :: s[i] != s[j]
    ensures |set x | x in s| == |s|
    decreases |s|
  {
    if s == [] {
    } else {
      DistinctCount(s[1..]);
      assert (set x | x in s) == {s[0]} + set x | x in s[1..];
    }
  }

  lemma {:induction false} SubsetSize<T>(a: set<T>, b: set<T>)
    requires a <= b
    ensures |a| <= |b|
    decreases |a|
  {
    if a == {} {
    } else {
      var x :| x in a;
      SubsetSize(a - {x}, b - {x});
    }
  }

  function Below(m: nat): (r: set<int>)
    ensures forall x :: x in r <==> 0 <= x < m
    ensures |r| == m
  {
    if m == 0 then {} else Below(m - 1) + {m - 1}
  }

  // A set of naturals below `m` has at most `m` members.
  lemma {:induction false} BoundedCount(s: set<int>, m: nat)
    requires forall x | x in s :: 0 <= x < m
    ensures |s| <= m
  {
    SubsetSize(s, Below(m));
  }
}
