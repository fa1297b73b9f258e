/** Which members of a list a loop keeps. */
module Selection {

  /** Strictly ascending. */
  ghost predicate Ascends(f: seq<nat>) { forall i, j :: 0 <= i < j < |f| ==> f[i] < f[j] }

  /** The positions below `n` that `keep` accepts, in ascending order. */
  function Chosen(n: nat, keep: nat -> bool): (f: seq<nat>)
    ensures Ascends(f)
    ensures forall i: nat :: i in f <==> i < n && keep(i)
  {
    if n == 0 then []
    else
      var before := Chosen(n - 1, keep);
      assert forall j :: 0 <= j < |before| ==> before[j] in before;
      if keep(n - 1) then before + [n - 1] else before
  }
}
