/** What several components need. */
module Basics {

  datatype Option<T> = None | Some(value: T)

  ghost predicate NoRepeats<T>(q: seq<T>) {
    forall i, j :: 0 <= i < j < |q| ==> q[i] != q[j]
  }

  lemma {:induction false} CountDistinct<T>(q: seq<T>, x: T)
    requires NoRepeats(q)
    ensures multiset(q)[x] == if x in q then 1 else 0
    decreases |q|
  {
    if q != [] {
      var p := q[..|q|-1];
      assert q == p + [q[|q|-1]];
      CountDistinct(p, x);
    }
  }

  lemma OnceEach<T>(q: seq<T>)
    requires forall x :: multiset(q)[x] <= 1
    ensures NoRepeats(q)
  {
    forall i, j | 0 <= i < j < |q| ensures q[i] != q[j] {
      var p := q[..j];
      assert q == p + [q[j]] + q[j+1..];
      assert multiset(q)[q[j]] == multiset(p)[q[j]] + multiset([q[j]])[q[j]] + multiset(q[j+1..])[q[j]] <= 1;
      assert q[j] !in multiset(p);
      assert p[i] == q[i];
    }
  }

  lemma {:induction false} CardinalityOfSubset<T>(a: set<T>, b: set<T>)
    requires a <= b
    ensures |a| <= |b|
  {
    assert b == a + (b - a);
  }
}
