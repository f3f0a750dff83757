/** Facts about sequences that several modules use. */
module Sequences {
  lemma {:induction false} Associates<T>(a: seq<T>, b: seq<T>, c: seq<T>)
    ensures a + (b + c) == (a + b) + c
  {
  }

  /** `[x for x in s if x != dropped]` */
  function Without<T(==)>(s: seq<T>, dropped: T): seq<T> {
    if s == [] then [] else (if s[0] == dropped then [] else [s[0]]) + Without(s[1..], dropped)
  }

  lemma {:induction false} WithoutAbsent<T>(s: seq<T>, x: T)
    requires x !in s
    ensures Without(s, x) == s
    decreases |s|
  {
    if s != [] { WithoutAbsent(s[1..], x); }
  }

  lemma {:induction false} WithoutKeeps<T>(s: seq<T>, x: T)
    ensures x !in Without(s, x)
    ensures forall y :: y in s && y != x ==> y in Without(s, x)
    decreases |s|
  {
    if s != [] { WithoutKeeps(s[1..], x); }
  }

  lemma {:induction false} WithoutTwice<T>(s: seq<T>, x: T)
    ensures Without(Without(s, x), x) == Without(s, x)
  {
    WithoutKeeps(s, x);
    WithoutAbsent(Without(s, x), x);
  }

  lemma {:induction false} WithoutAppends<T>(a: seq<T>, b: seq<T>, x: T)
    ensures Without(a + b, x) == Without(a, x) + Without(b, x)
    decreases |a|
  {
    if a == [] {
      assert a + b == b;
    } else {
      WithoutAppends(a[1..], b, x);
      assert (a + b)[1..] == a[1..] + b && (a + b)[0] == a[0];
      Associates(if a[0] == x then [] else [a[0]], Without(a[1..], x), Without(b, x));
    }
  }
}
