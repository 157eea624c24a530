/**
 Generation handles: a slot index and a generation packed into one word, and how often a generation recurs.
 Object handles and endpoint handles share this code.
 */
module Handles {
  import opened Words

  const INVALID: u64 := 0

  /** How many generations a slot goes through before it repeats one: zero is skipped. */
  const PERIOD: nat := 0xFFFF_FFFF

  function Pack(index: u32, generation: u32): u64 {
    PackArithmetic(index, generation);
    Or(Shl(generation, 32), index)
  }

  function Index(h: u64): u32 {
    h % TWO32
  }

  function Generation(h: u64): u32 {
    Shr(h, 32) % TWO32
  }

  lemma Pow32()
    ensures Pow2(32) == TWO32
  {
    assert Pow2(8) == 0x100;
    assert Pow2(16) == 0x1_0000;
    assert Pow2(24) == 0x100_0000;
  }

  lemma PackArithmetic(index: u32, generation: u32)
    ensures Or(Shl(generation, 32), index) == generation * TWO32 + index < TWO64
  {
    Pow32();
    OrShl(generation, index, 32);
    ShlIsMul(generation, 32);
  }

  lemma PackIs(index: u32, generation: u32)
    ensures Pack(index, generation) == generation * TWO32 + index
  {
    PackArithmetic(index, generation);
  }

  lemma GenerationIs(h: u64)
    ensures Generation(h) == h / TWO32
  {
    Pow32();
    ShrIsDiv(h, 32);
  }

  /** Packing and unpacking are inverse, in both directions. */
  lemma UnpackPack(index: u32, generation: u32)
    ensures Index(Pack(index, generation)) == index && Generation(Pack(index, generation)) == generation
  {
    hide Or, Shl;
    PackArithmetic(index, generation);
    GenerationIs(Pack(index, generation));
  }

  lemma PackUnpack(h: u64)
    ensures Pack(Index(h), Generation(h)) == h
  {
    hide Or, Shl, Shr;
    GenerationIs(h);
    PackArithmetic(Index(h), Generation(h));
  }

  /** No handle with a generation of at least one is the invalid handle. */
  lemma IssuedIsNotInvalid(index: u32, generation: u32)
    requires generation >= 1
    ensures Pack(index, generation) != INVALID
  {
    hide Or, Shl;
    PackArithmetic(index, generation);
  }

  // ---- Generations ----

  /** The generation after a slot is cleared: incremented with wrap-around, never zero. */
  function NextGeneration(g: u32): (r: u32)
    ensures r >= 1
  {
    var n := (g + 1) % TWO32;
    if n == 0 then 1 else n
  }

  /** The generation of a slot that has been cleared so many times. */
  function GenerationAfter(clears: nat): (g: u32)
    ensures g >= 1
  {
    1 + clears % PERIOD
  }

  lemma GenerationStep(clears: nat)
    ensures NextGeneration(GenerationAfter(clears)) == GenerationAfter(clears + 1)
  {
    var r := clears % PERIOD;
    assert clears == clears / PERIOD * PERIOD + r;
    if r + 1 == PERIOD {
      assert clears + 1 == (clears / PERIOD + 1) * PERIOD;
    } else {
      assert clears + 1 == clears / PERIOD * PERIOD + (r + 1);
    }
  }

  /** A generation recurs exactly after a multiple of 2^32 - 1 clears. */
  lemma GenerationRecurs(before: nat, after: nat)
    requires before <= after
    ensures GenerationAfter(before) == GenerationAfter(after) <==> (after - before) % PERIOD == 0
  {
    var d := after - before;
    var q, r := before / PERIOD, before % PERIOD;
    var q', r' := d / PERIOD, d % PERIOD;
    assert after == (q + q') * PERIOD + (r + r');
    if r + r' < PERIOD {
      QuotientIs(after, PERIOD, q + q', r + r');
    } else {
      assert after == (q + q' + 1) * PERIOD + (r + r' - PERIOD);
      QuotientIs(after, PERIOD, q + q' + 1, r + r' - PERIOD);
    }
  }
}
