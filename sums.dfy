/** Order-free sums over finite sets. EmailDistribution.hashCode adds up the
    hashes of the members of hash sets, whose iteration order Java leaves
    unspecified; these sums are the specification such a loop is held to. */
module Sums {

  /** Some element of a non-empty set (the same one every time for the same set). */
  ghost function Pick<T>(s: set<T>): (x: T)
    requires s != {}
    ensures x in s
  {
    var x :| x in s; x
  }

  /** The sum of f over s. */
  ghost function SumOver<T>(s: set<T>, f: T -> int): int
    decreases s
  {
    if s == {} then 0 else f(Pick(s)) + SumOver(s - {Pick(s)}, f)
  }

  /** Any element may be taken out first: the sum does not depend on the order of the elements. */
  lemma {:induction false} SumOverRemove<T>(s: set<T>, f: T -> int, y: T)
    requires y in s
    ensures SumOver(s, f) == f(y) + SumOver(s - {y}, f)
    decreases s
  {
    var x := Pick(s);
    if y != x {
      SumOverRemove(s - {x}, f, y);
      assert s - {x} - {y} == s - {y} - {x};
      SumOverRemove(s - {y}, f, x);
    }
  }

  /** Adding a new element adds its value. */
  lemma SumOverAdd<T>(s: set<T>, f: T -> int, y: T)
    requires y !in s
    ensures SumOver(s + {y}, f) == f(y) + SumOver(s, f)
  {
    SumOverRemove(s + {y}, f, y);
    assert s + {y} - {y} == s;
  }

  /** Two functions that agree on s have the same sum over s. */
  lemma {:induction false} SumOverCongruent<T>(s: set<T>, f: T -> int, g: T -> int)
    requires forall x :: x in s ==> f(x) == g(x)
    ensures SumOver(s, f) == SumOver(s, g)
    decreases s
  {
    if s != {} {
      SumOverCongruent(s - {Pick(s)}, f, g);
    }
  }

  /** Elements on which f is 0 contribute nothing: the sum over s is the sum over the rest. */
  lemma {:induction false} SumOverDropZeros<T>(s: set<T>, t: set<T>, f: T -> int)
    requires t <= s
    requires forall x :: x in s && x !in t ==> f(x) == 0
    ensures SumOver(s, f) == SumOver(t, f)
    decreases s
  {
    if s != t {
      var x :| x in s && x !in t;
      SumOverRemove(s, f, x);
      SumOverDropZeros(s - {x}, t, f);
    }
  }
}
