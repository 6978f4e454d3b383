// What mp_alloc and mp_calloc do with sizes as size_t computes them, for every
// request: where sums and products wrap, and what the caller then gets.
module ArenaSizes {
  import opened Common
  import opened Arena
  import opened ArenaInvariant

  function SizeSum(a: nat, b: nat): nat {
    (a + b) % SIZE_MODULUS
  }

  function SizeDiff(a: nat, b: nat): nat {
    (a - b) % SIZE_MODULUS
  }

  function SizeProduct(a: nat, b: nat): nat {
    a * b % SIZE_MODULUS
  }

  ghost predicate SizesOk(s: State) {
    forall b :: b in s.obtained ==> b.size < SIZE_MODULUS
  }

  // The loop test of mp_alloc, negated.
  predicate FitsSize(f: Frame, nbytes: nat) {
    nbytes <= SizeDiff(f.limit, f.avail)
  }

  // The pool after linking the block posix_memalign returns for the size computed.
  function LinkedSize(s: State, p: Block, nbytes: nat, spare: Block): State
    requires p in s.pools
  {
    s.(pools := s.pools[p := s.pools[p] + [Frame(spare, HEADER, SizeSum(HEADER, nbytes), [])]],
       obtained := s.obtained + {spare})
  }

  // The loop of mp_alloc. A new block always ends it: see NewBlockEndsLoop.
  function Loop(s: State, p: Block, nbytes: nat, spare: Block): State
    requires p in s.pools && |s.pools[p]| > 0
    decreases |s.free|
  {
    if FitsSize(Top(s.pools[p]), nbytes) then s
    else if s.free != [] then Loop(Recycled(s, p, 1), p, nbytes, spare)
    else LinkedSize(s, p, nbytes, spare)
  }

  // For every request, the frame of a new block passes the loop test. The range
  // lies in the block exactly if the sum does not wrap; if it does, not even the
  // header fits. The same goes for the base block of mp_new.
  lemma NewBlockEndsLoop(block: Block, nbytes: nat)
    requires nbytes < SIZE_MODULUS && block.size == SizeSum(HEADER, nbytes)
    ensures FitsSize(Frame(block, HEADER, block.size, []), nbytes)
    ensures HEADER + nbytes <= block.size <==> HEADER + nbytes < SIZE_MODULUS
    ensures HEADER + nbytes >= SIZE_MODULUS ==> block.size < HEADER
  {
  }

  lemma FitsAsExpected(s: State, p: Block, nbytes: nat)
    requires Inv(s) && SizesOk(s) && p in s.pools
    ensures |s.pools[p]| > 0
    ensures FitsSize(Top(s.pools[p]), nbytes) <==> Fits(s, p, nbytes)
    ensures Fits(s, p, nbytes) ==> HEADER + nbytes < SIZE_MODULUS
  {
    var f := Top(s.pools[p]);
    assert At(s, Held(p, |s.pools[p]| - 1), f.block) && FrameOk(f);
  }

  // The loop in size_t takes the chunks that Alloc takes.
  lemma {:induction false} LoopLinks(s: State, p: Block, nbytes: nat, spare: Block)
    requires Inv(s) && SizesOk(s) && p in s.pools && |s.pools[p]| > 0
    ensures
      var k := Misfits(s.free, nbytes);
      Loop(s, p, nbytes, spare)
        == if Fits(s, p, nbytes) then s
           else if k < |s.free| then Recycled(s, p, k + 1)
           else LinkedSize(Recycled(s, p, k), p, nbytes, spare)
    decreases |s.free|
  {
    FitsAsExpected(s, p, nbytes);
    if !Fits(s, p, nbytes) {
      if s.free == [] {
        RecycledNone(s, p);
      } else {
        hide Inv;
        var u := Recycled(s, p, 1);
        RecycleOneKeeps(s, p);
        LoopLinks(u, p, nbytes, spare);
        TakenIsTop(s, p, nbytes);
        var j := Misfits(u.free, nbytes);
        if !Fits(u, p, nbytes) {
          if j < |u.free| { RecycleFirst(s, p, j + 1); } else { RecycleFirst(s, p, j); }
        }
      }
    }
  }

  lemma TakenIsTop(s: State, p: Block, nbytes: nat)
    requires p in s.pools && s.free != []
    ensures var u := Recycled(s, p, 1);
      && p in u.pools && |u.pools[p]| > 0 && u.obtained == s.obtained && |u.free| == |s.free| - 1
      && (Fits(u, p, nbytes) <==> Misfits(s.free, nbytes) == 0)
      && (!Fits(u, p, nbytes) ==> Misfits(s.free, nbytes) == 1 + Misfits(u.free, nbytes))
  {
  }

  // After the loop the request passes the loop test, and the range about to be cut
  // lies in the current block exactly if header and request do not wrap.
  predicate Served(l: State, p: Block, nbytes: nat) {
    && p in l.pools && |l.pools[p]| > 0
    && var top := Top(l.pools[p]);
    && FitsSize(top, nbytes)
    && (top.avail + nbytes <= top.block.size <==> HEADER + nbytes < SIZE_MODULUS)
  }

  lemma ServedByOldBlock(s: State, p: Block, nbytes: nat)
    requires Inv(s) && SizesOk(s) && p in s.pools && |s.pools[p]| > 0 && Fits(s, p, nbytes)
    ensures Served(s, p, nbytes) && HEADER + nbytes < SIZE_MODULUS
  {
    FitsAsExpected(s, p, nbytes);
    assert FrameOk(Top(s.pools[p]));
  }

  lemma ServedByNewBlock(s: State, p: Block, nbytes: nat, spare: Block)
    requires p in s.pools && nbytes < SIZE_MODULUS && spare.size == SizeSum(HEADER, nbytes)
    ensures var l := LinkedSize(s, p, nbytes, spare);
      && Served(l, p, nbytes) && Top(l.pools[p]).block == spare
      && (HEADER + nbytes < SIZE_MODULUS ==> l == Linked(s, p, nbytes, spare))
  {
    NewBlockEndsLoop(spare, nbytes);
  }

  // mp_alloc with any size at all. If header and request together do not wrap, it
  // does what Alloc says. If they do, it takes every free chunk, asks for a block
  // that cannot hold its header, and returns a range that is not in the block. So
  // the range returned lies in its block exactly if the sum does not wrap.
  lemma RangeInBlockExactlyWhen(s: State, p: Block, nbytes: nat, spare: Block)
    requires Inv(s) && SizesOk(s) && p in s.pools && |s.pools[p]| > 0 && 0 < nbytes < SIZE_MODULUS
    requires NeedsBlock(s, p, nbytes) ==> spare !in s.obtained && spare.size == SizeSum(HEADER, nbytes)
    ensures
      var l := Loop(s, p, nbytes, spare);
      && Served(l, p, nbytes)
      && (HEADER + nbytes < SIZE_MODULUS ==> Bumped(l, p, nbytes) == Alloc(s, p, nbytes, spare))
      && (HEADER + nbytes >= SIZE_MODULUS ==>
            l.free == [] && Top(l.pools[p]).block == spare && spare.size < HEADER)
  {
    LoopLinks(s, p, nbytes, spare);
    hide Inv, SizesOk, Loop, Served, Bumped;
    var k := Misfits(s.free, nbytes);
    if Fits(s, p, nbytes) {
      ServedByOldBlock(s, p, nbytes);
    } else if k < |s.free| {
      RecycledKeeps(s, p, k + 1);
      RecycledTop(s, p, k + 1);
      RecycledSizes(s, p, k + 1);
      ServedByOldBlock(Recycled(s, p, k + 1), p, nbytes);
    } else {
      RecycledTop(s, p, k);
      ServedByNewBlock(Recycled(s, p, k), p, nbytes, spare);
    }
  }

  lemma RecycledSizes(s: State, p: Block, k: nat)
    requires SizesOk(s) && p in s.pools && k <= |s.free|
    ensures SizesOk(Recycled(s, p, k))
  {
  }

  // One byte less than all of memory: the block has 23 bytes, and the range starts
  // behind them.
  lemma WrappedRequest()
    ensures SizeSum(HEADER, SIZE_MODULUS - 1) == 23
    ensures SizeDiff(SizeSum(HEADER, SIZE_MODULUS - 1), HEADER) == SIZE_MODULUS - 1
  {
  }

  // mp_calloc asks for what its caller wants exactly if the product does not wrap,
  // and for less otherwise.
  lemma ProductExact(count: nat, nbytes: nat)
    ensures SizeProduct(count, nbytes) == count * nbytes <==> count * nbytes < SIZE_MODULUS
    ensures SizeProduct(count, nbytes) <= count * nbytes
  {
  }

  // 2^32 elements of 2^32 + 1 bytes: mp_calloc asks for 2^32 bytes in all.
  lemma WrappedProduct()
    ensures SizeProduct(INT_MODULUS, INT_MODULUS + 1) == INT_MODULUS
  {
    assert INT_MODULUS * (INT_MODULUS + 1) == SIZE_MODULUS + INT_MODULUS;
  }
}
