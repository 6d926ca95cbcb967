/** The words of the frame bitmap and its bits. */
module BitWords {
  /** 1 << j */
  function Mask(j: nat): bv32 { if j == 0 then 1 else Mask(j - 1) << 1 }

  predicate Meets(w: bv32, m: bv32) { w & m != 0 }

  /** frame_bitmap[index] |= (1 << bit) */
  function With(w: bv32, m: bv32): bv32 { w | m }

  /** frame_bitmap[index] &= ~(1 << bit) */
  function Without(w: bv32, m: bv32): bv32 { w & !m }

  predicate Bit(w: bv32, j: nat) { Meets(w, Mask(j)) }

  lemma {:induction false} MaskNonZero(j: nat)
    requires j < 32
    ensures Mask(j) != 0
    decreases 31 - j
  {
    if j == 31 {
      assert Mask(8) == 0x100;
      assert Mask(16) == 0x1_0000;
      assert Mask(24) == 0x100_0000;
      assert Mask(31) == 0x8000_0000;
    } else {
      MaskNonZero(j + 1);
      ShiftZero(Mask(j));
    }
  }

  lemma ShiftZero(m: bv32)
    ensures m == 0 ==> m << 1 == 0
  {
  }

  lemma ShiftApart(m: bv32, n: bv32)
    ensures m & n == 0 ==> (m << 1) & (n << 1) == 0
    ensures 1 & (n << 1) == 0
  {
  }

  lemma {:induction false} MasksApart(i: nat, j: nat)
    requires i < j
    ensures !Meets(Mask(i), Mask(j))
  {
    if i == 0 {
      ShiftApart(0, Mask(j - 1));
    } else {
      MasksApart(i - 1, j - 1);
      ShiftApart(Mask(i - 1), Mask(j - 1));
    }
  }

  lemma SameMeets(r: bv32, w: bv32, n: bv32)
    requires r & n == w & n
    ensures Meets(r, n) == Meets(w, n)
  {
  }

  lemma NotMeets(m: bv32, n: bv32)
    requires !Meets(m, n)
    ensures m & n == 0
  {
  }

  lemma OrKeeps(w: bv32, m: bv32, n: bv32, r: bv32)
    requires m & n == 0 && r == w | m
    ensures r & n == w & n
  {
  }

  lemma AndNotKeeps(w: bv32, m: bv32, n: bv32, r: bv32)
    requires m & n == 0 && r == w & !m
    ensures r & n == w & n
  {
  }

  lemma SetSame(w: bv32, m: bv32)
    requires m != 0
    ensures Meets(With(w, m), m)
  {
    assert (w | m) & m == m;
  }

  lemma ClearSame(w: bv32, m: bv32)
    ensures !Meets(Without(w, m), m)
  {
  }

  lemma SetOther(w: bv32, m: bv32, n: bv32)
    requires !Meets(m, n)
    ensures Meets(With(w, m), n) == Meets(w, n)
  {
    var r := With(w, m);
    NotMeets(m, n);
    OrKeeps(w, m, n, r);
    hide Meets, With;
    SameMeets(r, w, n);
  }

  lemma ClearOther(w: bv32, m: bv32, n: bv32)
    requires !Meets(m, n)
    ensures Meets(Without(w, m), n) == Meets(w, n)
  {
    var r := Without(w, m);
    NotMeets(m, n);
    AndNotKeeps(w, m, n, r);
    hide Meets, Without;
    SameMeets(r, w, n);
  }

  lemma MasksDiffer(i: nat, j: nat)
    requires i != j
    ensures !Meets(Mask(i), Mask(j))
  {
    hide Mask;
    if i < j {
      MasksApart(i, j);
    } else {
      MasksApart(j, i);
      AndCommutes(Mask(i), Mask(j));
    }
  }

  lemma AndCommutes(m: bv32, n: bv32)
    ensures m & n == n & m
  {
  }

  lemma SetHere(w: bv32, i: nat)
    requires i < 32
    ensures Bit(With(w, Mask(i)), i)
  {
    hide Mask, Meets, With, Without;
    MaskNonZero(i);
    SetSame(w, Mask(i));
  }

  lemma SetElsewhere(w: bv32, i: nat, j: nat)
    requires i != j
    ensures Bit(With(w, Mask(i)), j) == Bit(w, j)
  {
    hide Mask, Meets, With, Without;
    MasksDiffer(i, j);
    SetOther(w, Mask(i), Mask(j));
  }

  lemma ClearHere(w: bv32, i: nat)
    ensures !Bit(Without(w, Mask(i)), i)
  {
    hide Mask, Meets, With, Without;
    ClearSame(w, Mask(i));
  }

  lemma ClearElsewhere(w: bv32, i: nat, j: nat)
    requires i != j
    ensures Bit(Without(w, Mask(i)), j) == Bit(w, j)
  {
    hide Mask, Meets, With, Without;
    MasksDiffer(i, j);
    ClearOther(w, Mask(i), Mask(j));
  }

  /** A word the search skips has no free bit. */
  lemma FullWord(j: nat)
    requires j < 32
    ensures Bit(0xFFFF_FFFF, j)
  {
    hide Mask, Meets, With, Without;
    MaskNonZero(j);
    AllOnes(Mask(j));
  }

  lemma AllOnes(m: bv32)
    requires m != 0
    ensures Meets(0xFFFF_FFFF, m)
  {
    assert 0xFFFF_FFFF & m == m;
  }
}
