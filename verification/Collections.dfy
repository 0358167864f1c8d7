/** Small facts about sets and sequences. */
module Collections {
  lemma UnionSize<X>(a: set<X>, b: set<X>)
    ensures |a + b| <= |a| + |b|
    ensures |a + b| == |a| + |b| <==> a * b == {}
  {
    assert |a + b| == |a| + |b| - |a * b|;
  }

  lemma {:induction false} SubsetSize<X>(a: set<X>, b: set<X>)
    requires a <= b
    ensures |a| <= |b|
  {
    assert b == a + (b - a);
  }

  lemma MoveOver<X>(done: seq<X>, x: X, rest: seq<X>)
    ensures (done + [x]) + rest == done + ([x] + rest)
  {
  }
}
