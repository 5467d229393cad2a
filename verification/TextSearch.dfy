/** Finding one text in another: `in` and `find` on strings. */
module TextSearch {
  import opened Texts

  predicate At(t: Text, was: Text, k: nat) {
    k + |was| <= |t| && t[k..k + |was|] == was
  }

  /** The first occurrence. */
  function Find(t: Text, was: Text): (r: Option<nat>)
    ensures r.Some? ==> At(t, was, r.value) && forall j: nat :: j < r.value ==> !At(t, was, j)
    ensures r.None? ==> forall j: nat :: !At(t, was, j)
    decreases |t|
  {
    FindShift(t, was);
    if At(t, was, 0) then Some(0)
    else if t == [] then None
    else
      match Find(t[1..], was)
      case Some(k) => Some(k + 1)
      case None => None
  }

  lemma FindShift(t: Text, was: Text)
    ensures t != [] ==> forall j: nat :: j > 0 ==> (At(t, was, j) <==> At(t[1..], was, j - 1))
  {
    if t != [] {
      forall j: nat | j > 0
        ensures At(t, was, j) <==> At(t[1..], was, j - 1)
      {
        if j + |was| <= |t| {
          assert t[1..][j - 1..j - 1 + |was|] == t[j..j + |was|];
        }
      }
    }
  }

  lemma FindIs(t: Text, was: Text, k: nat)
    requires At(t, was, k) && forall j: nat :: j < k ==> !At(t, was, j)
    ensures Find(t, was) == Some(k)
  {
    hide At, Find;
  }

  lemma FindNone(t: Text, was: Text)
    requires forall j: nat :: !At(t, was, j)
    ensures Find(t, was) == None
  {
    hide At, Find;
  }

  lemma FindWithin(a: Text, was: Text)
    ensures Find(a, was).Some? ==> Find(a, was).value + |was| <= |a|
  {
  }

  lemma FindWhole(t: Text)
    ensures Find(t, t) == Some(0)
  {
    assert At(t, t, 0);
  }
}
