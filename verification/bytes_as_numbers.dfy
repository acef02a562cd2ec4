/** The number a byte stands for, and the arithmetic facts that connect the two views. */
module ByteNumbers {

  /** Counts up to b. Equal to `b as nat` (lemma NumIsValue); the recursive form keeps
      bit-level and arithmetic reasoning apart. */
  function Num(b: bv8): (n: nat)
    decreases b
  {
    if b == 0 then 0 else Num(b - 1) + 1
  }

  lemma {:induction false} NumIsValue(b: bv8)
    ensures Num(b) == b as nat
    decreases b
  {
    if b != 0 {
      NumIsValue(b - 1);
      Predecessor(b);
    }
  }

  lemma Predecessor(b: bv8)
    requires b != 0
    ensures (b - 1) as nat == b as nat - 1
  {
  }

  lemma NumStep(b: bv8)
    ensures b == 0 ==> Num(b) == 0
    ensures b != 0 ==> Num(b) == Num(b - 1) + 1
  {
  }

  lemma {:induction false} NumDifference(a: bv8, b: bv8)
    requires b <= a
    ensures Num(a - b) == Num(a) - Num(b)
    decreases Num(b)
  {
    hide Num;
    NumStep(a);
    NumStep(b);
    LowerBoth(a, b);
    if b != 0 {
      NumDifference(a - 1, b - 1);
    }
  }

  lemma LowerBoth(a: bv8, b: bv8)
    requires b <= a
    ensures a - 0 == a
    ensures b != 0 ==> a != 0 && b - 1 <= a - 1 && (a - 1) - (b - 1) == a - b
  {
  }

  lemma NumOrder(a: bv8, b: bv8)
    ensures a <= b <==> Num(a) <= Num(b)
    ensures a == b <==> Num(a) == Num(b)
  {
    if a <= b {
      NumDifference(b, a);
    } else {
      NumDifference(a, b);
    }
  }

  lemma NumSuccessor(b: bv8)
    requires b != 0xFF
    ensures Num(b + 1) == Num(b) + 1
  {
  }

  lemma SmallNumbers()
    ensures Num(0) == 0 && Num(1) == 1 && Num(2) == 2 && Num(3) == 3 && Num(4) == 4
    ensures Num(5) == 5 && Num(6) == 6 && Num(7) == 7 && Num(8) == 8
  {
    assert Num(2) == 2;
    assert Num(4) == 4;
    assert Num(6) == 6;
  }
}
