/** Finite sequences and sets that several modules count with. */
module Common {

  datatype Option<T> = None | Some(value: T)

  ghost predicate Distinct(q: seq<nat>) {
    forall i, j :: 0 <= i < j < |q| ==> q[i] != q[j]
  }

  /** Taking element k out of a sequence. */
  function Drop(q: seq<nat>, k: nat): seq<nat>
    requires k < |q|
  {
    q[..k] + q[k + 1..]
  }

  ghost function Elements(q: seq<nat>): set<nat> {
    set x | x in q
  }

  lemma {:induction false} DistinctSize(q: seq<nat>)
    requires Distinct(q)
    ensures |Elements(q)| == |q|
  {
    if q == [] {
      assert Elements(q) == {};
    } else {
      DistinctSize(q[1..]);
      assert Elements(q) == {q[0]} + Elements(q[1..]);
    }
  }

  ghost function Upto(n: nat): (r: set<nat>)
    ensures (forall i: nat :: i in r <==> i < n) && |r| == n
  {
    if n == 0 then {} else Upto(n - 1) + {n - 1}
  }

  lemma {:induction false} SubsetSize<T>(a: set<T>, b: set<T>)
    requires a <= b
    ensures |a| <= |b|
  {
    if a != {} {
      var x :| x in a;
      SubsetSize(a - {x}, b - {x});
    }
  }
}
