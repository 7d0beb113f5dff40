/** Powers of two. */
module Powers {
  import opened Modular

  function Pow2(k: nat): (r: nat)
    ensures r >= 1
  {
    if k == 0 then 1 else 2 * Pow2(k - 1)
  }

  lemma Pow2Doubled(k: nat)
    ensures Pow2(k + 1) == 2 * Pow2(k) && Pow2(k + 1) / 2 == Pow2(k) && Pow2(0) == 1
  {
  }

  lemma {:induction false} Pow2Add(i: nat, j: nat)
    ensures Pow2(i + j) == Pow2(i) * Pow2(j)
  {
    if i > 0 {
      Pow2Add(i - 1, j);
      assert 2 * (Pow2(i - 1) * Pow2(j)) == (2 * Pow2(i - 1)) * Pow2(j);
    }
  }

  lemma {:induction false} Pow2Monotone(i: nat, j: nat)
    requires i <= j
    ensures Pow2(i) <= Pow2(j)
  {
    if i < j {
      Pow2Monotone(i, j - 1);
    }
  }

  lemma Pow2Values()
    ensures Pow2(4) == 16 && Pow2(59) == 0x800_0000_0000_0000 && Pow2(63) * 2 == W64
  {
    assert Pow2(10) == 1024;
    Pow2Add(10, 10);
    Pow2Add(20, 20);
    Pow2Add(40, 19);
    assert Pow2(9) == 512;
    Pow2Add(10, 9);
    Pow2Add(59, 4);
  }
}
