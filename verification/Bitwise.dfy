/** Bitwise operators on natural numbers, defined bit by bit, and how they act on a number cut at a bit
    position. */
module Bitwise {
  /** a & b */
  function And(a: nat, b: nat): nat
    decreases a
  {
    if a == 0 || b == 0 then 0 else (if a % 2 == 1 && b % 2 == 1 then 1 else 0) + 2 * And(a / 2, b / 2)
  }

  /** a | b */
  function Or(a: nat, b: nat): nat
    decreases a + b
  {
    if a == 0 then b else if b == 0 then a else (if a % 2 == 1 || b % 2 == 1 then 1 else 0) + 2 * Or(a / 2, b / 2)
  }

  /** a >> k */
  function High(a: nat, k: nat): nat
    decreases k
  {
    if k == 0 then a else High(a / 2, k - 1)
  }

  /** The k low bits. */
  function Low(a: nat, k: nat): nat
    decreases k
  {
    if k == 0 then 0 else a % 2 + 2 * Low(a / 2, k - 1)
  }

  lemma AndHalves(a: nat, b: nat)
    ensures And(a, b) / 2 == And(a / 2, b / 2) && And(a, b) % 2 == if a % 2 == 1 && b % 2 == 1 then 1 else 0
  {
  }

  lemma OrHalves(a: nat, b: nat)
    ensures Or(a, b) / 2 == Or(a / 2, b / 2) && Or(a, b) % 2 == if a % 2 == 1 || b % 2 == 1 then 1 else 0
  {
  }

  lemma Zeros()
    ensures And(0, 0) == 0 && Or(0, 0) == 0
  {
  }

  /** Upper and lower bits do not interact. */
  lemma {:induction false} AndCut(a: nat, b: nat, k: nat)
    ensures High(And(a, b), k) == And(High(a, k), High(b, k)) && Low(And(a, b), k) == And(Low(a, k), Low(b, k))
    decreases k
  {
    hide And;
    if k > 0 {
      AndHalves(a, b);
      AndCut(a / 2, b / 2, k - 1);
      AndHalves(Low(a, k), Low(b, k));
    } else {
      Zeros();
    }
  }

  lemma {:induction false} OrCut(a: nat, b: nat, k: nat)
    ensures High(Or(a, b), k) == Or(High(a, k), High(b, k)) && Low(Or(a, b), k) == Or(Low(a, k), Low(b, k))
    decreases k
  {
    hide Or;
    if k > 0 {
      OrHalves(a, b);
      OrCut(a / 2, b / 2, k - 1);
      OrHalves(Low(a, k), Low(b, k));
    } else {
      Zeros();
    }
  }

  /** A number is its upper and its lower bits. */
  lemma {:induction false} Rebuild(a: nat, b: nat, k: nat)
    requires High(a, k) == High(b, k) && Low(a, k) == Low(b, k)
    ensures a == b
    decreases k
  {
    if k > 0 { Rebuild(a / 2, b / 2, k - 1); }
  }

  /** All ones: 2^k - 1 */
  function Ones(k: nat): nat { if k == 0 then 0 else 1 + 2 * Ones(k - 1) }

  /** a & (2^k - 1) */
  lemma {:induction false} AndOnes(a: nat, k: nat)
    ensures And(a, Ones(k)) == Low(a, k)
    decreases k
  {
    if k > 0 {
      AndHalves(a, Ones(k));
      AndOnes(a / 2, k - 1);
    }
  }

  /** 2^k */
  function Pow2(k: nat): nat { if k == 0 then 1 else 2 * Pow2(k - 1) }

  lemma {:induction false} CutIsDivision(a: nat, k: nat)
    ensures a == Pow2(k) * High(a, k) + Low(a, k) && Low(a, k) < Pow2(k)
    decreases k
  {
    if k > 0 {
      CutIsDivision(a / 2, k - 1);
      Double(Pow2(k - 1), High(a / 2, k - 1));
    }
  }

  lemma Double(p: nat, h: nat)
    ensures 2 * p * h == 2 * (p * h)
  {
  }

  lemma Powers()
    ensures Pow2(3) == 8 && Pow2(10) == 0x400 && Pow2(12) == 0x1000 && Pow2(20) == 0x10_0000
    ensures Ones(10) == 0x3FF && Ones(12) == 0xFFF && Ones(20) == 0xF_FFFF
  {
    assert Pow2(10) == 0x400 && Ones(10) == 0x3FF;
    assert Pow2(15) == 0x8000 && Ones(15) == 0x7FFF;
  }

  /** Shifting and masking by the amounts the page tables use. */
  lemma Cut3(a: nat)
    ensures High(a, 3) == a / 8 && Low(a, 3) == a % 8
  {
    Powers();
    hide High, Low, Pow2, Ones;
    CutIsDivision(a, 3);
  }

  lemma Cut10(a: nat)
    ensures High(a, 10) == a / 1024 && Low(a, 10) == a % 1024 && Ones(10) == 0x3FF
  {
    Powers();
    hide High, Low, Pow2, Ones;
    CutIsDivision(a, 10);
  }

  lemma Cut12(a: nat)
    ensures High(a, 12) == a / 4096 && Low(a, 12) == a % 4096 && Ones(12) == 0xFFF
  {
    Powers();
    hide High, Low, Pow2, Ones;
    CutIsDivision(a, 12);
  }

  lemma Cut20(a: nat)
    ensures High(a, 20) == a / 0x10_0000 && Low(a, 20) == a % 0x10_0000 && Ones(20) == 0xF_FFFF
  {
    Powers();
    hide High, Low, Pow2, Ones;
    CutIsDivision(a, 20);
  }
}
