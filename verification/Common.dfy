/** Small definitions shared by several layers. */
module Common {

  datatype Option<T> = None | Some(value: T)

  /** `x >> k` of an unsigned value. */
  function Halved(x: nat, k: nat): nat {
    if k == 0 then x else Halved(x / 2, k - 1)
  }

  lemma HalvedFour(x: nat, k: nat)
    ensures Halved(x, k + 4) == Halved(x / 16, k)
  {
    assert Halved(x, k + 4) == Halved(x / 2, k + 3);
    assert Halved(x / 2, k + 3) == Halved(x / 2 / 2, k + 2);
    assert Halved(x / 2 / 2, k + 2) == Halved(x / 2 / 2 / 2, k + 1);
    assert x / 2 / 2 / 2 / 2 == x / 16;
  }
}
