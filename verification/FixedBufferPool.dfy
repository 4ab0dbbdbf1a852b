/**
 The pool of FixedBuffer.hpp: `c` blocks of `n` bytes in one allocation, handed
 out by a bitmap tree. An address is a number; a null pointer is `None`.
 */
module FixedBufferPools {
  import opened Arithmetic
  import opened BitmapValues
  import opened BitmapTrees
  import opened Options

  function BlockAddress(poolBuf: nat, n: nat, idx: nat): nat {
    poolBuf + idx * n
  }

  /** The byte addresses of block `idx`. */
  predicate InBlock(poolBuf: nat, n: nat, idx: nat, a: nat) {
    BlockAddress(poolBuf, n, idx) <= a < BlockAddress(poolBuf, n, idx) + n
  }

  function IndexOf(poolBuf: nat, n: nat, a: nat): nat
    requires poolBuf <= a && n > 0
  {
    (a - poolBuf) / n
  }

  /** Every address of a block leads back to the block's index. */
  lemma IndexRecovered(poolBuf: nat, n: nat, idx: nat, a: nat)
    requires n > 0 && InBlock(poolBuf, n, idx, a)
    ensures poolBuf <= a && IndexOf(poolBuf, n, a) == idx
  {
    var k := a - BlockAddress(poolBuf, n, idx);
    DivModUnique(a - poolBuf, idx, k, n);
  }

  lemma HeldBelow(c: nat, ops: seq<Op>, i: nat)
    requires c >= 2 && i in Run(c, ops).held
    ensures i < c
  {
    var p := Run(c, ops);
    assert i in Free(p.tree) + p.held;
  }

  /** After any run of a pool with at least two blocks, the blocks in use lie
      inside the allocation and no two of them share a byte. */
  lemma LiveBlocksDisjoint(c: nat, n: nat, poolBuf: nat, ops: seq<Op>, i: nat, j: nat, a: nat)
    requires c >= 2 && n > 0
    requires i in Run(c, ops).held && j in Run(c, ops).held
    requires InBlock(poolBuf, n, i, a)
    ensures poolBuf <= a < poolBuf + c * n
    ensures poolBuf + i * n == BlockAddress(poolBuf, n, i) <= a < BlockAddress(poolBuf, n, i) + n
    ensures InBlock(poolBuf, n, j, a) ==> i == j
  {
    HeldBelow(c, ops, i);
    MultiplesApart(n, i, c);
    IndexRecovered(poolBuf, n, i, a);
    if InBlock(poolBuf, n, j, a) {
      IndexRecovered(poolBuf, n, j, a);
    }
  }

  class FixedBufferPool {
    const c: nat
    const n: nat
    const poolBuf: nat
    const bmt: BitmapTree

    ghost predicate Valid()
      reads bmt, set l | l in bmt.layers :: l.bits
    {
      0 < n && 0 < poolBuf && c <= 0x7FFF_FFFF && bmt.Valid() && bmt.size == c
    }

    constructor (c: nat, n: nat, poolBuf: nat)
      requires c <= 0x7FFF_FFFF && n > 0 && poolBuf > 0
      ensures Valid() && this.c == c && this.n == n && this.poolBuf == poolBuf
      ensures c >= 2 ==> Free(bmt.tree) == Below(c)
    {
      this.c, this.n, this.poolBuf := c, n, poolBuf;
      assert Pow64(MAX_DEEP) == 64 * Pow64(7);
      assert Pow64(6) == 64 * (64 * (64 * (64 * (64 * 64))));
      var tree := new BitmapTree(c);
      bmt := tree;
    }

    /** The address of the lowest free block; null when all blocks are in use. */
    method Alloc() returns (buf: Option<nat>)
      requires Valid()
      modifies bmt`tree, set l | l in bmt.layers :: l.bits
      ensures Valid()
      ensures bmt.tree == Acquire(old(bmt.tree)).1
      ensures var r := Acquire(old(bmt.tree)).0;
        buf == if r < 0 then None else Some(BlockAddress(poolBuf, n, r))
    {
      var offset := bmt.BitRequire();
      if offset >= 0 {
        return Some(BlockAddress(poolBuf, n, offset));
      }
      return None;
    }

    /** Takes back the block that the pointer points into; null is ignored. */
    method Release(buf: Option<nat>, ghost idx: nat)
      requires Valid()
      requires buf.Some? ==> idx < c && InBlock(poolBuf, n, idx, buf.value)
      modifies bmt`tree, set l | l in bmt.layers :: l.bits
      ensures Valid()
      ensures buf.None? || c <= 1 ==> bmt.tree == old(bmt.tree)
      ensures buf.Some? ==> bmt.tree == GiveBack(old(bmt.tree), idx)
    {
      if buf.Some? {
        IndexRecovered(poolBuf, n, idx, buf.value);
        var offset := (buf.value - poolBuf) / n;
        bmt.BitTurnback(offset);
      }
    }
  }
}
