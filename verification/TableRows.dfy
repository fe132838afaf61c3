/** How the entries of a twiddle table follow from one another. */
module TableRows {
  import opened Bits
  import opened ModQ
  import opened Montgomery
  import opened Twiddles
  import opened Rows

  /** Entry k of the table of a base: R·base^rev(k). */
  function Entry(base: residue, k: nat): residue {
    (4091 * (Pow(base, Rev(10, k)) % 12289)) % 12289
  }

  /** What separates entry k + 2^j from entry k. */
  function Factor(base: residue, j: nat): residue
    requires j < 10
  {
    Squared(base, 9 - j)
  }

  lemma Factors()
    ensures Factor(7, 0) == 10810 && Factor(7, 1) == 7143 && Factor(7, 2) == 10984 && Factor(7, 3) == 3542
    ensures Factor(7, 4) == 7468 && Factor(7, 5) == 2319 && Factor(7, 6) == 1260 && Factor(7, 7) == 2401
    ensures Factor(7, 8) == 49 && Factor(7, 9) == 7
    ensures Factor(8778, 0) == 1479 && Factor(8778, 1) == 8246 && Factor(8778, 2) == 4134 && Factor(8778, 3) == 6429
    ensures Factor(8778, 4) == 10938 && Factor(8778, 5) == 726 && Factor(8778, 6) == 5374
    ensures Factor(8778, 7) == 11813 && Factor(8778, 8) == 1254 && Factor(8778, 9) == 8778
  {
    SquareChain();
    hide Squared;
  }

  lemma Powers()
    ensures Pow2(0) == 1 && Pow2(1) == 2 && Pow2(2) == 4 && Pow2(3) == 8 && Pow2(4) == 16
    ensures Pow2(5) == 32 && Pow2(6) == 64 && Pow2(7) == 128 && Pow2(8) == 256 && Pow2(9) == 512
  {
    assert Pow2(4) == 16;
    assert Pow2(5) == 32;
    hide Pow2;
    Pow2Add(5, 1);
    Pow2Add(5, 2);
    Pow2Add(5, 3);
    Pow2Add(5, 4);
  }

  /** A new top bit of k is a new low bit of its reversal. */
  lemma {:induction false} RevAddsBit(b: nat, j: nat, k: nat)
    requires j < b && k < Pow2(j)
    ensures Rev(b, k + Pow2(j)) == Rev(b, k) + Pow2(b - 1 - j)
    decreases j
  {
    if j == 0 {
      RevStep(b, 1);
      RevZero(b - 1);
      RevZero(b);
    } else {
      var p := Pow2(j - 1);
      assert Pow2(j) == 2 * p;
      hide Rev, Pow2;
      HalveSum(k, p);
      RevStep(b, k + 2 * p);
      RevStep(b, k);
      RevAddsBit(b - 1, j - 1, k / 2);
    }
  }

  lemma HalveSum(k: nat, p: nat)
    requires k < 2 * p
    ensures (k + 2 * p) / 2 == k / 2 + p && (k + 2 * p) % 2 == k % 2 && k / 2 < p
  {
  }

  /** Entry k + 2^j is entry k times the factor of level j. */
  lemma EntryUp(base: residue, k: nat, j: nat)
    requires j < 10 && k < Pow2(j)
    ensures Entry(base, k + Pow2(j)) == (Entry(base, k) * Factor(base, j)) % 12289
  {
    hide Rev, Pow, Pow2, Squared;
    RevAddsBit(10, j, k);
    SquaredPower(base, 9 - j);
    PowAdd(base, Rev(10, k), Pow2(9 - j));
    EntryProduct(Pow(base, Rev(10, k)), Pow(base, Pow2(9 - j)), Squared(base, 9 - j));
  }

  lemma EntryProduct(p: int, s: int, f: int)
    requires Cong(s, f)
    ensures (4091 * ((p * s) % 12289)) % 12289 == ((4091 * (p % 12289)) % 12289 * f) % 12289
  {
    var x := (4091 * (p % 12289)) % 12289;
    hide *;
    Reduced(p * s);
    Reduced(p);
    CongMul2(x, 4091 * p, f, s) by {
      CongTrans(s, f, f);
    }
    CongMod(x * f);
    CongTrans((x * f) % 12289, x * f, 4091 * p * s);
    assert 4091 * p * s == 4091 * (p * s);
    EqualReduced((4091 * ((p * s) % 12289)) % 12289, 4091 * (p * s), (x * f) % 12289);
  }

  lemma Reduced(p: int)
    ensures Cong((4091 * (p % 12289)) % 12289, 4091 * p)
  {
    var m := p % 12289;
    CongMod(p);
    CongMod(4091 * m);
    hide *;
    CongMul(m, p, 4091);
    CongTrans((4091 * m) % 12289, 4091 * m, 4091 * p);
  }

  lemma EqualReduced(a: int, c: int, b: int)
    requires 0 <= a < 12289 && 0 <= b < 12289 && Cong(a, c) && Cong(b, c)
    ensures a == b
  {
    hide *;
    CongTrans(b, c, c) by {
      CongMod(c);
    }
    CongTrans(a, c, b);
    CongReduced(a, b);
  }

  // ----- a whole table -----

  /** Every entry k + 2^j is entry k times the factor of level j. */
  ghost predicate TableGrows(t: Table, base: residue) {
    && RowGrows(t.b0.r0, Factor(base, 0), Factor(base, 1), Factor(base, 2), Factor(base, 3))
    && BlockGrows(t.b0, Factor(base, 4), Factor(base, 5), Factor(base, 6))
    && BlocksGrow(t, Factor(base, 7), Factor(base, 8), Factor(base, 9))
  }

  lemma TableGrowsAt(t: Table, base: residue, j: nat, k: nat)
    requires TableGrows(t, base) && j < 10 && k < Pow2(j)
    ensures Step(t.At(k), t.At(k + Pow2(j)), Factor(base, j))
  {
    hide *;
    Powers();
    InFirst(t, k);
    InFirst(t, k + Pow2(j));
    Parts(t, base);
    if j < 4 {
      RowGrowsAt(t.b0.r0, (Factor(base, 0), Factor(base, 1), Factor(base, 2), Factor(base, 3)), j, Pow2(j), k);
    } else if j < 7 {
      BlockGrowsAt(t.b0, (Factor(base, 4), Factor(base, 5), Factor(base, 6)), j, Pow2(j) / 16, k);
    } else {
      BlocksGrowAt(t, (Factor(base, 7), Factor(base, 8), Factor(base, 9)), j, Pow2(j) / 128, k);
    }
  }

  lemma Parts(t: Table, base: residue)
    requires TableGrows(t, base)
    ensures RowGrows(t.b0.r0, Factor(base, 0), Factor(base, 1), Factor(base, 2), Factor(base, 3))
    ensures BlockGrows(t.b0, Factor(base, 4), Factor(base, 5), Factor(base, 6))
    ensures BlocksGrow(t, Factor(base, 7), Factor(base, 8), Factor(base, 9))
  {
    hide RowGrows, BlockGrows, BlocksGrow, Factor;
  }

  /** A table that grows by the factors of a base holds R·base^rev(k) at every k. */
  lemma {:induction false} EntriesFollow(t: Table, base: residue, k: nat)
    requires TableGrows(t, base) && k < 1024
    ensures t.At(k) == Entry(base, k)
  {
    hide *;
    if k == 0 {
      EntryZero(t, base);
    } else {
      var j := TopBit(k);
      EntriesFollow(t, base, k - Pow2(j));
      TableGrowsAt(t, base, j, k - Pow2(j));
      EntryUp(base, k - Pow2(j), j);
      StepIs(t.At(k - Pow2(j)), t.At(k), Factor(base, j));
    }
  }

  lemma EntryZero(t: Table, base: residue)
    requires TableGrows(t, base)
    ensures t.At(0) == Entry(base, 0)
  {
    hide *;
    Parts(t, base);
    InFirst(t, 0);
    FirstEntry(t.b0.r0, Factor(base, 0), Factor(base, 1), Factor(base, 2), Factor(base, 3));
    EntryAtZero(base);
  }

  lemma EntryAtZero(base: residue)
    ensures Entry(base, 0) == 4091
  {
    RevZero(10);
    hide Rev;
  }

  lemma StepIs(x: int, y: int, c: int)
    requires Step(x, y, c)
    ensures y == (x * c) % 12289
  {
  }

  /** The highest bit of k. */
  lemma TopBit(k: nat) returns (j: nat)
    requires 1 <= k < 1024
    ensures j < 10 && Pow2(j) <= k < Pow2(j) + Pow2(j)
  {
    Powers();
    hide Pow2;
    j := if k < 2 then 0 else if k < 4 then 1 else if k < 8 then 2 else if k < 16 then 3 else if k < 32 then 4
         else if k < 64 then 5 else if k < 128 then 6 else if k < 256 then 7 else if k < 512 then 8 else 9;
  }
}
