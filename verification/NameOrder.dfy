/** The order of std::map keys: strings, character by character. */
module NameOrder {
  predicate NameLeq(a: string, b: string) {
    a == "" || (b != "" && (a[0] < b[0] || (a[0] == b[0] && NameLeq(a[1..], b[1..]))))
  }

  lemma {:induction false} NameTotal(a: string, b: string)
    ensures NameLeq(a, b) || NameLeq(b, a)
  {
    if a != "" && b != "" && a[0] == b[0] { NameTotal(a[1..], b[1..]); }
  }

  lemma {:induction false} NameAntisymmetric(a: string, b: string)
    requires NameLeq(a, b) && NameLeq(b, a)
    ensures a == b
  {
    if a != "" {
      NameAntisymmetric(a[1..], b[1..]);
      assert a == [a[0]] + a[1..] && b == [b[0]] + b[1..];
    }
  }

  lemma {:induction false} NameTransitive(a: string, b: string, c: string)
    requires NameLeq(a, b) && NameLeq(b, c)
    ensures NameLeq(a, c)
  {
    if a != "" && a[0] == b[0] == c[0] { NameTransitive(a[1..], b[1..], c[1..]); }
  }

  /** One name is before another if it is a front of it, or smaller where they first differ. */
  lemma {:induction false} NameLeqExactly(a: string, b: string)
    ensures NameLeq(a, b) <==> a <= b || exists i :: SmallerAt(a, b, i)
    decreases |a|
  {
    if a != "" && b != "" && a[0] == b[0] {
      NameLeqExactly(a[1..], b[1..]);
      assert a == [a[0]] + a[1..] && b == [b[0]] + b[1..];
      if i: nat :| SmallerAt(a[1..], b[1..], i) { assert SmallerAt(a, b, i + 1); }
      if i: nat :| SmallerAt(a, b, i) && i > 0 { assert SmallerAt(a[1..], b[1..], i - 1); }
    } else if a != "" && b != "" {
      if a[0] < b[0] { assert SmallerAt(a, b, 0); }
    }
  }

  predicate SmallerAt(a: string, b: string, i: nat) { i < |a| && i < |b| && a[..i] == b[..i] && a[i] < b[i] }

  predicate IsLeast(n: string, names: set<string>) {
    n in names && forall m :: m in names ==> NameLeq(n, m)
  }

  lemma {:induction false} LeastExists(names: set<string>) returns (n: string)
    requires names != {}
    ensures IsLeast(n, names)
  {
    n :| n in names;
    NameTotal(n, n);
    if names != {n} {
      var m := LeastExists(names - {n});
      NameTotal(n, m);
      forall k | k in names
        ensures NameLeq(if NameLeq(n, m) then n else m, k)
      {
        if k != n && NameLeq(n, m) { NameTransitive(n, m, k); }
      }
      n := if NameLeq(n, m) then n else m;
    }
  }

  lemma LeastUnique(n: string, m: string, names: set<string>)
    requires IsLeast(n, names) && IsLeast(m, names)
    ensures n == m
  {
    NameAntisymmetric(n, m);
  }
}
