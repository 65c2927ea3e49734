/** `MemoryBank` (kdtree.hpp): a FIFO pool of raw node blocks. `Get` takes the block at the front,
    first appending BANK_SIZE newly allocated blocks when the pool is empty; `Store` returns a block
    at the back. A block is modelled by a handle; newly allocated blocks get the handles
    nextBlock, nextBlock + 1, ... so that they differ from every handle handed out before. */
module MemoryBank {

  const BANK_SIZE: nat := 80000

  /** The handles of n blocks allocated one after the other, starting with handle a. */
  function FreshBlocks(a: nat, n: nat): (r: seq<nat>)
    ensures |r| == n
  {
    seq(n, i requires 0 <= i => a + i)
  }

  lemma FreshBlocksAbove(a: nat, n: nat, b: nat)
    requires b in FreshBlocks(a, n)
    ensures a <= b < a + n
  {
  }

  /** Blocks allocated in two runs are the blocks of one longer run. */
  lemma FreshBlocksSplit(a: nat, n: nat, m: nat)
    ensures FreshBlocks(a, n) + FreshBlocks(a + n, m) == FreshBlocks(a, n + m)
  {
  }

  /** The counter after c + k `Get`s: it counts up to BANK_SIZE and then stays there. */
  function Saturated(c: nat, k: nat): (r: nat)
    requires c <= BANK_SIZE
    ensures r <= BANK_SIZE && (r == c + k || r == BANK_SIZE)
  {
    if c + k <= BANK_SIZE then c + k else BANK_SIZE
  }

  /** Between two states of the pool, `blocks` were taken off its front, with fresh blocks
      allocated at the back only once the pool ran dry, and the counter counted each of them. */
  ghost predicate Took(bank: seq<nat>, next: nat, counter: nat,
                       bank': seq<nat>, next': nat, counter': nat, blocks: seq<nat>)
  {
    && counter <= BANK_SIZE && next <= next'
    && bank + FreshBlocks(next, next' - next) == blocks + bank'
    && counter' == Saturated(counter, |blocks|)
    && (|blocks| <= |bank| ==> next' == next)
  }

  /** Taking x and then y is taking x + y. */
  lemma TookCompose(b0: seq<nat>, n0: nat, c0: nat, b1: seq<nat>, n1: nat, c1: nat,
                    b2: seq<nat>, n2: nat, c2: nat, x: seq<nat>, y: seq<nat>)
    requires Took(b0, n0, c0, b1, n1, c1, x) && Took(b1, n1, c1, b2, n2, c2, y)
    ensures Took(b0, n0, c0, b2, n2, c2, x + y)
  {
    FreshBlocksSplit(n0, n1 - n0, n2 - n1);
    calc {
      b0 + FreshBlocks(n0, n2 - n0);
      (b0 + FreshBlocks(n0, n1 - n0)) + FreshBlocks(n1, n2 - n1);
      x + (b1 + FreshBlocks(n1, n2 - n1));
      x + y + b2;
    }
    if |x + y| <= |b0| {
      assert |b0| == |x| + |b1| + (n1 - n0);
    }
  }

  /** While the pool holds enough blocks, taking k of them takes exactly its first k, allocates
      nothing, and leaves the rest in order. */
  lemma TookFromStock(bank: seq<nat>, next: nat, counter: nat,
                      bank': seq<nat>, next': nat, counter': nat, blocks: seq<nat>)
    requires Took(bank, next, counter, bank', next', counter', blocks) && |blocks| <= |bank|
    ensures next' == next && blocks == bank[..|blocks|] && bank' == bank[|blocks|..]
  {
    assert bank + FreshBlocks(next, 0) == bank;
    assert blocks == (blocks + bank')[..|blocks|];
    assert bank' == (blocks + bank')[|blocks|..];
  }

  class MemoryBank {
    /** `bank`: the pooled blocks, front first. */
    var bank: seq<nat>
    /** `counter`: how many `Get`s have happened, saturating at BANK_SIZE. */
    var counter: nat
    /** The handle the next allocated block receives. */
    var nextBlock: nat
    /** Every block `Get` has returned, in order. */
    ghost var issued: seq<nat>

    ghost predicate Valid()
      reads this
    {
      counter <= BANK_SIZE && forall b | b in bank :: b < nextBlock
    }

    /** The pool starts with BANK_SIZE newly allocated blocks and a zero counter. */
    constructor()
      ensures Valid()
      ensures bank == FreshBlocks(0, BANK_SIZE) && |bank| == BANK_SIZE
      ensures counter == 0 && nextBlock == BANK_SIZE && issued == []
    {
      bank := seq(BANK_SIZE, _ => 0);
      nextBlock := 0;
      counter := 0;
      issued := [];
      new;
      for i := 0 to BANK_SIZE
        invariant |bank| == BANK_SIZE && nextBlock == i && counter == 0 && issued == []
        invariant forall k | 0 <= k < i :: bank[k] == k
      {
        bank := bank[i := nextBlock];
        nextBlock := nextBlock + 1;
      }
      assert bank == FreshBlocks(0, BANK_SIZE);
      forall b | b in bank
        ensures b < nextBlock
      {
        FreshBlocksAbove(0, BANK_SIZE, b);
      }
    }

    /** `Allocate`: BANK_SIZE newly allocated blocks join the back of the pool. */
    method Allocate()
      requires Valid()
      modifies this
      ensures Valid()
      ensures bank == old(bank) + FreshBlocks(old(nextBlock), BANK_SIZE)
      ensures nextBlock == old(nextBlock) + BANK_SIZE
      ensures counter == old(counter) && issued == old(issued)
    {
      ghost var n0 := nextBlock;
      for i := 0 to BANK_SIZE
        invariant nextBlock == n0 + i && counter == old(counter) && issued == old(issued)
        invariant bank == old(bank) + FreshBlocks(n0, i)
        invariant forall b | b in bank :: b < nextBlock
      {
        assert FreshBlocks(n0, i + 1) == FreshBlocks(n0, i) + [nextBlock];
        bank := bank + [nextBlock];
        nextBlock := nextBlock + 1;
      }
    }

    /** `Get`: the block at the front of the pool, refilled first when empty, leaves the pool; the
        others keep their order. The counter counts up to BANK_SIZE and then stays there. */
    method Get() returns (front: nat)
      requires Valid()
      modifies this
      ensures Valid()
      ensures var pool := if old(bank) == [] then FreshBlocks(old(nextBlock), BANK_SIZE) else old(bank);
              front == pool[0] && bank == pool[1..]
      ensures nextBlock == old(nextBlock) + if old(bank) == [] then BANK_SIZE else 0
      ensures counter == if old(counter) < BANK_SIZE then old(counter) + 1 else old(counter)
      ensures issued == old(issued) + [front]
      ensures front < nextBlock
      ensures old(bank) + FreshBlocks(old(nextBlock), nextBlock - old(nextBlock)) == [front] + bank
    {
      if bank == [] {
        Allocate();
      }
      front := bank[0];
      assert front in bank;
      assert forall b | b in bank[1..] :: b in bank;
      bank := bank[1..];
      if counter >= BANK_SIZE {
        // The source runs the (trivial) destructor of a block that held a node.
      } else {
        counter := counter + 1;
      }
      issued := issued + [front];
    }

    /** `Store`: the block joins the back of the pool. */
    method Store(block: nat)
      requires Valid() && block < nextBlock
      modifies this
      ensures Valid()
      ensures bank == old(bank) + [block]
      ensures counter == old(counter) && nextBlock == old(nextBlock) && issued == old(issued)
    {
      bank := bank + [block];
    }
  }
}
