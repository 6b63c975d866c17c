/** Sequences with one member taken out, without repetitions, and in ascending order. */
module Sequences {

  /** Sequence c without the first x. */
  function Without<T(==)>(c: seq<T>, x: T): seq<T> {
    if c == [] then [] else if c[0] == x then c[1..] else [c[0]] + Without(c[1..], x)
  }

  ghost predicate Once<T>(c: seq<T>) {
    forall i, j | 0 <= i < j < |c| :: c[i] != c[j]
  }

  /** Taking out a member of a sequence without repetitions takes out just that. */
  lemma {:induction false} WithoutMembers<T>(c: seq<T>, x: T)
    ensures forall y | y != x :: y in Without(c, x) <==> y in c
    ensures Once(c) ==> x !in Without(c, x) && Once(Without(c, x))
    ensures x !in c ==> Without(c, x) == c
    ensures |Without(c, x)| == if x in c then |c| - 1 else |c|
  {
    if c != [] {
      WithoutMembers(c[1..], x);
      assert c == [c[0]] + c[1..];
      if Once(c) {
        OnceTail(c);
        if c[0] != x { OncePrepended(c[0], Without(c[1..], x)); }
      }
    }
  }

  lemma OnceTail<T>(c: seq<T>)
    requires Once(c) && c != []
    ensures Once(c[1..]) && c[0] !in c[1..]
  {
  }

  lemma OncePrepended<T>(x: T, d: seq<T>)
    requires Once(d) && x !in d
    ensures Once([x] + d)
  {
    var c := [x] + d;
    assert forall j | 0 < j < |c| :: c[j] == d[j - 1];
  }

  // ----- Strictly ascending sequences -----

  ghost predicate Ascending(c: seq<int>) {
    forall i, j | 0 <= i < j < |c| :: c[i] < c[j]
  }

  lemma NoneAscend()
    ensures Ascending([])
  {
  }

  lemma Prepended(a: int, c: seq<int>)
    requires Ascending(c) && forall b | b in c :: a < b
    ensures Ascending([a] + c) && ([a] + c)[1..] == c && forall b :: b in [a] + c <==> b == a || b in c
  {
    assert forall j | 0 <= j < |c| :: c[j] in c;
  }
}
