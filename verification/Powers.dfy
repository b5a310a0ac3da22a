/** Powers of an integer. */
module Powers {
  function PowI(z: int, k: nat): int {
    if k == 0 then 1 else PowI(z, k - 1) * z
  }

  lemma {:induction false} PowAddI(z: int, a: nat, b: nat)
    ensures PowI(z, a + b) == PowI(z, a) * PowI(z, b)
  {
    if b > 0 {
      PowAddI(z, a, b - 1);
      assert (PowI(z, a) * PowI(z, b - 1)) * z == PowI(z, a) * (PowI(z, b - 1) * z);
    }
  }

  lemma {:induction false} PowMulI(z: int, a: nat, b: nat)
    ensures a * b >= 0 && PowI(z, a * b) == PowI(PowI(z, a), b)
  {
    if b > 0 {
      PowMulI(z, a, b - 1);
      assert a * b == a * (b - 1) + a;
      PowAddI(z, a * (b - 1), a);
    }
  }

  lemma {:induction false} PowNextI(z: int, k: nat)
    ensures PowI(z, 0) == 1 && PowI(z, k + 1) == PowI(z, k) * z
  {
  }

  lemma {:induction false} PowPositive(z: int, k: nat)
    requires z > 0
    ensures PowI(z, k) > 0
  {
    if k > 0 {
      PowPositive(z, k - 1);
    }
  }
}
