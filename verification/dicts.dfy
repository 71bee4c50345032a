/** Python's `dict(pairs)` built from a sequence of key-value pairs. */
module PyDict {

  /** `dict(pairs)`: pairs are inserted in order, so a later pair overwrites
      an earlier one with the same key. */
  function DictOf<K(==), V>(ps: seq<(K, V)>): (m: map<K, V>)
    ensures forall i :: 0 <= i < |ps| ==> ps[i].0 in m
    ensures forall k :: k in m ==> exists i :: 0 <= i < |ps| && ps[i].0 == k
  {
    if |ps| == 0 then map[]
    else
      var init := ps[..|ps| - 1];
      var m := DictOf(init)[ps[|ps| - 1].0 := ps[|ps| - 1].1];
      assert forall i :: 0 <= i < |ps| - 1 ==> ps[i] == init[i];
      m
  }

  /** A key maps to the value of the last pair that has it. */
  lemma {:induction false} DictOfLast<K, V>(ps: seq<(K, V)>, i: nat)
    requires i < |ps|
    requires forall j :: i < j < |ps| ==> ps[j].0 != ps[i].0
    ensures DictOf(ps)[ps[i].0] == ps[i].1
  {
    if i < |ps| - 1 {
      var init := ps[..|ps| - 1];
      assert init[i] == ps[i];
      forall j | i < j < |init|
        ensures init[j].0 != init[i].0
      {
        assert init[j] == ps[j];
      }
      DictOfLast(init, i);
    }
  }

  /** With no key repeated, every pair is found in the dict as it is. */
  lemma DictOfDistinct<K, V>(ps: seq<(K, V)>)
    requires forall i, j :: 0 <= i < j < |ps| ==> ps[i].0 != ps[j].0
    ensures forall i :: 0 <= i < |ps| ==> DictOf(ps)[ps[i].0] == ps[i].1
  {
    forall i | 0 <= i < |ps|
      ensures DictOf(ps)[ps[i].0] == ps[i].1
    {
      DictOfLast(ps, i);
    }
  }
}
