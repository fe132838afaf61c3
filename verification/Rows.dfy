/** The layout of the shipped twiddle tables, and how their parts follow from one another. */
module Rows {
  /** Sixteen consecutive entries. */
  datatype Row16 = Row16(
    x0: int, x1: int, x2: int, x3: int, x4: int, x5: int, x6: int, x7: int,
    x8: int, x9: int, x10: int, x11: int, x12: int, x13: int, x14: int, x15: int)
  {
    function At(i: nat): int {
      if i == 0 then x0 else if i == 1 then x1 else if i == 2 then x2 else if i == 3 then x3
      else if i == 4 then x4 else if i == 5 then x5 else if i == 6 then x6 else if i == 7 then x7
      else if i == 8 then x8 else if i == 9 then x9 else if i == 10 then x10 else if i == 11 then x11
      else if i == 12 then x12 else if i == 13 then x13 else if i == 14 then x14 else x15
    }
  }

  /** Eight consecutive rows. */
  datatype Block = Block(r0: Row16, r1: Row16, r2: Row16, r3: Row16, r4: Row16, r5: Row16, r6: Row16, r7: Row16)
  {
    function Row(r: nat): Row16 {
      if r == 0 then r0 else if r == 1 then r1 else if r == 2 then r2 else if r == 3 then r3
      else if r == 4 then r4 else if r == 5 then r5 else if r == 6 then r6 else r7
    }

    function At(k: nat): int {
      Row(k / 16).At(k % 16)
    }
  }

  /** All 1024 entries. */
  datatype Table = Table(b0: Block, b1: Block, b2: Block, b3: Block, b4: Block, b5: Block, b6: Block, b7: Block)
  {
    function Part(b: nat): Block {
      if b == 0 then b0 else if b == 1 then b1 else if b == 2 then b2 else if b == 3 then b3
      else if b == 4 then b4 else if b == 5 then b5 else if b == 6 then b6 else b7
    }

    function At(k: nat): int {
      Part(k / 128).At(k % 128)
    }
  }

  predicate Step(x: int, y: int, c: int) {
    y == (x * c) % 12289
  }

  /** Row y is row x times c, entry by entry. */
  predicate RowStep(x: Row16, y: Row16, c: int) {
    && Step(x.x0, y.x0, c) && Step(x.x1, y.x1, c) && Step(x.x2, y.x2, c) && Step(x.x3, y.x3, c)
    && Step(x.x4, y.x4, c) && Step(x.x5, y.x5, c) && Step(x.x6, y.x6, c) && Step(x.x7, y.x7, c)
    && Step(x.x8, y.x8, c) && Step(x.x9, y.x9, c) && Step(x.x10, y.x10, c) && Step(x.x11, y.x11, c)
    && Step(x.x12, y.x12, c) && Step(x.x13, y.x13, c) && Step(x.x14, y.x14, c) && Step(x.x15, y.x15, c)
  }

  predicate BlockStep(x: Block, y: Block, c: int) {
    && RowStep(x.r0, y.r0, c) && RowStep(x.r1, y.r1, c) && RowStep(x.r2, y.r2, c) && RowStep(x.r3, y.r3, c)
    && RowStep(x.r4, y.r4, c) && RowStep(x.r5, y.r5, c) && RowStep(x.r6, y.r6, c) && RowStep(x.r7, y.r7, c)
  }

  /** The first row grows from its first entry by doubling: entry k + 2^j is entry k times the j-th constant. */
  predicate RowGrows(x: Row16, c0: int, c1: int, c2: int, c3: int) {
    && x.x0 == 4091 && Step(x.x0, x.x1, c0) && Step(x.x0, x.x2, c1) && Step(x.x1, x.x3, c1)
    && Step(x.x0, x.x4, c2) && Step(x.x1, x.x5, c2) && Step(x.x2, x.x6, c2) && Step(x.x3, x.x7, c2)
    && Step(x.x0, x.x8, c3) && Step(x.x1, x.x9, c3) && Step(x.x2, x.x10, c3) && Step(x.x3, x.x11, c3)
    && Step(x.x4, x.x12, c3) && Step(x.x5, x.x13, c3) && Step(x.x6, x.x14, c3) && Step(x.x7, x.x15, c3)
  }

  /** The first block grows from its first row in the same way. */
  predicate BlockGrows(x: Block, c4: int, c5: int, c6: int) {
    && RowStep(x.r0, x.r1, c4) && RowStep(x.r0, x.r2, c5) && RowStep(x.r1, x.r3, c5)
    && RowStep(x.r0, x.r4, c6) && RowStep(x.r1, x.r5, c6) && RowStep(x.r2, x.r6, c6) && RowStep(x.r3, x.r7, c6)
  }

  /** And the table from its first block. */
  predicate BlocksGrow(t: Table, c7: int, c8: int, c9: int) {
    && BlockStep(t.b0, t.b1, c7) && BlockStep(t.b0, t.b2, c8) && BlockStep(t.b1, t.b3, c8)
    && BlockStep(t.b0, t.b4, c9) && BlockStep(t.b1, t.b5, c9) && BlockStep(t.b2, t.b6, c9) && BlockStep(t.b3, t.b7, c9)
  }

  // ----- entry by entry -----

  lemma RowStepAt(x: Row16, y: Row16, c: int, i: nat)
    requires RowStep(x, y, c) && i < 16
    ensures Step(x.At(i), y.At(i), c)
  {
    hide Step;
  }

  lemma BlockStepAt(x: Block, y: Block, c: int, k: nat)
    requires BlockStep(x, y, c) && k < 128
    ensures Step(x.At(k), y.At(k), c)
  {
    hide RowStep, Step, Row16.At;
    RowStepAt(x.Row(k / 16), y.Row(k / 16), c, k % 16);
  }

  lemma RowGrowsAt(x: Row16, c: (int, int, int, int), j: nat, p: nat, k: nat)
    requires RowGrows(x, c.0, c.1, c.2, c.3) && k < p
    requires (j == 0 && p == 1) || (j == 1 && p == 2) || (j == 2 && p == 4) || (j == 3 && p == 8)
    ensures Step(x.At(k), x.At(k + p), if j == 0 then c.0 else if j == 1 then c.1 else if j == 2 then c.2 else c.3)
  {
    hide Step;
  }

  lemma BlockGrowsAt(x: Block, c: (int, int, int), j: nat, p: nat, k: nat)
    requires BlockGrows(x, c.0, c.1, c.2) && k < 16 * p
    requires (j == 4 && p == 1) || (j == 5 && p == 2) || (j == 6 && p == 4)
    ensures Step(x.At(k), x.At(k + 16 * p), if j == 4 then c.0 else if j == 5 then c.1 else c.2)
  {
    hide RowStep, Step, Row16.At;
    assert (k + 16 * p) / 16 == k / 16 + p && (k + 16 * p) % 16 == k % 16;
    RowStepAt(x.Row(k / 16), x.Row(k / 16 + p), if j == 4 then c.0 else if j == 5 then c.1 else c.2, k % 16);
  }

  lemma BlocksGrowAt(t: Table, c: (int, int, int), j: nat, p: nat, k: nat)
    requires BlocksGrow(t, c.0, c.1, c.2) && k < 128 * p
    requires (j == 7 && p == 1) || (j == 8 && p == 2) || (j == 9 && p == 4)
    ensures Step(t.At(k), t.At(k + 128 * p), if j == 7 then c.0 else if j == 8 then c.1 else c.2)
  {
    hide BlockStep, Step, Block.At;
    assert (k + 128 * p) / 128 == k / 128 + p && (k + 128 * p) % 128 == k % 128;
    BlockStepAt(t.Part(k / 128), t.Part(k / 128 + p), if j == 7 then c.0 else if j == 8 then c.1 else c.2, k % 128);
  }

  lemma FirstEntry(x: Row16, c0: int, c1: int, c2: int, c3: int)
    requires RowGrows(x, c0, c1, c2, c3)
    ensures x.At(0) == 4091
  {
    hide Step;
  }

  /** An entry in the first block, or in the first row. */
  lemma InFirst(t: Table, k: nat)
    ensures k < 128 ==> t.At(k) == t.b0.At(k)
    ensures k < 16 ==> t.b0.At(k) == t.b0.r0.At(k)
  {
    hide Row16.At;
  }
}
