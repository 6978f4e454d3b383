// The memory pools of main/mem/mem.c as a value: which block every pool, the
// free list and the system own, and which byte ranges have been handed out.
// The operations are given here in closed form; ArenaHeap.dfy proves that the
// pointer-chasing loops compute exactly these results.
module Arena {
  import opened Common

  // sizeof(struct mem_pool): three pointers.
  const HEADER: nat := 24
  const THRESHOLD: nat := 10

  // A char pointer into a block.
  datatype Ptr = Ptr(block: Block?, off: nat)

  // One block returned by posix_memalign. Its first HEADER bytes hold a
  // struct mem_pool, here the three fields `prev`, `avail` and `limit`.
  class Block {
    const size: nat
    const data: array<byte>
    var prev: Block?
    var avail: Ptr
    var limit: Ptr

    // The contents of a new block, header included, are arbitrary.
    constructor (size: nat)
      ensures this.size == size && data.Length == size && fresh(data)
    {
      this.size := size;
      data := new byte[size];
    }
  }

  // The bytes [lo, hi) of a block, handed out by one allocation.
  datatype Range = Range(lo: nat, hi: nat)

  // What a pool knows about one of its blocks: the bump pointer and the limit
  // (offsets from the start of the block), and the ranges cut from it.
  datatype Frame = Frame(block: Block, avail: nat, limit: nat, ranges: seq<Range>) {
    function Left(): int { limit - avail }
  }

  // A chunk on the free list remembers the limit stored in its header.
  datatype Chunk = Chunk(block: Block, limit: nat)

  // pools: the frames of each live pool, its base block first; a pool is named
  //   by its base block. The last frame is the one being allocated from.
  // free: the shared free list, its head LAST.
  // released: the blocks passed to free(), in order.
  // obtained: every block posix_memalign ever returned.
  datatype State = State(
    pools: map<Block, seq<Frame>>,
    free: seq<Chunk>,
    nfree: int,
    released: seq<Block>,
    obtained: set<Block>)

  const Start := State(map[], [], 0, [], {})

  function Top(fs: seq<Frame>): Frame
    requires |fs| > 0
  {
    fs[|fs| - 1]
  }

  // The i-th element counted from the head of a stack whose head is last.
  function Nth<T>(stack: seq<T>, i: nat): T
    requires i < |stack|
  {
    stack[|stack| - 1 - i]
  }

  function Opened(c: Chunk): Frame { Frame(c.block, HEADER, c.limit, []) }

  // mp_new
  function New(s: State, nbytes: nat, base: Block): State {
    s.(pools := s.pools[base := [Frame(base, HEADER, HEADER + nbytes, [])]],
       obtained := s.obtained + {base})
  }

  // How many chunks at the head of the free list are too small for nbytes.
  function Misfits(free: seq<Chunk>, nbytes: nat): (k: nat)
    ensures k <= |free|
    ensures forall i :: 0 <= i < k ==> Nth(free, i).limit - HEADER < nbytes
    ensures k < |free| ==> nbytes <= Nth(free, k).limit - HEADER
  {
    if free == [] || nbytes <= Nth(free, 0).limit - HEADER then 0
    else
      var rest := free[..|free| - 1];
      assert forall i :: 0 < i < |free| ==> Nth(free, i) == Nth(rest, i - 1);
      1 + Misfits(rest, nbytes)
  }

  // The k chunks at the head of the free list, opened in the order they are taken.
  function TakenFrames(free: seq<Chunk>, k: nat): (fs: seq<Frame>)
    requires k <= |free|
    ensures |fs| == k && forall i :: 0 <= i < k ==> fs[i] == Opened(Nth(free, i))
  {
    seq(k, i requires 0 <= i < k => Opened(Nth(free, i)))
  }

  // The pool p after taking the k chunks at the head of the free list.
  function Recycled(s: State, p: Block, k: nat): State
    requires p in s.pools && k <= |s.free|
  {
    s.(pools := s.pools[p := s.pools[p] + TakenFrames(s.free, k)],
       free := s.free[..|s.free| - k],
       nfree := s.nfree - k)
  }

  // The pool p after linking a new block of exactly the size that is needed.
  function Linked(s: State, p: Block, nbytes: nat, spare: Block): State
    requires p in s.pools
  {
    s.(pools := s.pools[p := s.pools[p] + [Frame(spare, HEADER, HEADER + nbytes, [])]],
       obtained := s.obtained + {spare})
  }

  // The next nbytes of the current block are handed out.
  function Bumped(s: State, p: Block, nbytes: nat): State
    requires p in s.pools && |s.pools[p]| > 0
  {
    var fs := s.pools[p];
    var top := Top(fs);
    var cut := Range(top.avail, top.avail + nbytes);
    s.(pools := s.pools[p := fs[..|fs| - 1] + [top.(avail := top.avail + nbytes, ranges := top.ranges + [cut])]])
  }

  predicate Fits(s: State, p: Block, nbytes: nat)
    requires p in s.pools && |s.pools[p]| > 0
  {
    nbytes <= Top(s.pools[p]).Left()
  }

  // Neither the current block nor any chunk of the free list has room.
  predicate NeedsBlock(s: State, p: Block, nbytes: nat)
    requires p in s.pools && |s.pools[p]| > 0
  {
    !Fits(s, p, nbytes) && Misfits(s.free, nbytes) == |s.free|
  }

  // mp_alloc: bump if it fits, otherwise take chunks from the free list up to
  // the first one that is large enough, otherwise a new block.
  function Alloc(s: State, p: Block, nbytes: nat, spare: Block): State
    requires p in s.pools && |s.pools[p]| > 0
  {
    var k := Misfits(s.free, nbytes);
    if Fits(s, p, nbytes) then Bumped(s, p, nbytes)
    else if k < |s.free| then Bumped(Recycled(s, p, k + 1), p, nbytes)
    else Bumped(Linked(Recycled(s, p, k), p, nbytes, spare), p, nbytes)
  }

  // The newest `kept` frames as free chunks, in the order they are given up.
  function KeptChunks(fs: seq<Frame>, kept: nat): (cs: seq<Chunk>)
    requires kept <= |fs|
    ensures |cs| == kept && forall i :: 0 <= i < kept ==> cs[i] == Chunk(Nth(fs, i).block, Nth(fs, i).limit)
  {
    seq(kept, i requires 0 <= i < kept => Chunk(Nth(fs, i).block, Nth(fs, i).limit))
  }

  // The blocks of the frames older than the newest `kept`, up to the j-th.
  function DroppedBlocks(fs: seq<Frame>, kept: nat, j: nat): (bs: seq<Block>)
    requires kept <= j <= |fs|
    ensures |bs| == j - kept && forall i :: 0 <= i < j - kept ==> bs[i] == Nth(fs, kept + i).block
  {
    seq<Block>(j - kept, i requires 0 <= i < j - kept => Nth(fs, kept + i).block)
  }

  // The pool p after giving up its j newest chunks: the first of them go to the
  // free list while it has room, the others are released.
  function Unwound(s: State, p: Block, j: nat): State
    requires p in s.pools && j < |s.pools[p]|
  {
    var fs := s.pools[p];
    var kept := Kept(s.nfree, j);
    s.(pools := s.pools[p := fs[..|fs| - j]],
       free := s.free + KeptChunks(fs, kept),
       nfree := s.nfree + kept,
       released := s.released + DroppedBlocks(fs, kept, j))
  }

  function Kept(nfree: int, j: nat): (kept: nat)
    ensures kept <= j
  {
    if nfree >= THRESHOLD then 0 else if j <= THRESHOLD - nfree then j else THRESHOLD - nfree
  }

  // mp_free
  function Free(s: State, p: Block): State
    requires p in s.pools && |s.pools[p]| > 0
  {
    Unwound(s, p, |s.pools[p]| - 1)
  }

  // mp_delete
  function Delete(s: State, p: Block, clean: bool): State
    requires p in s.pools && |s.pools[p]| > 0
  {
    var t := Free(if clean then s.(nfree := THRESHOLD) else s, p);
    t.(pools := t.pools - {p}, released := t.released + [p])
  }

  // ------------------------------------------------------------------ invariant

  // The places a block can be in. Held(p, 0) is the base of pool p, Held(p, i)
  // with i > 0 its i-th chunk.
  datatype Place = Held(pool: Block, i: nat) | OnFreeList(i: nat) | Released(i: nat)

  // Block b is in place x.
  predicate At(s: State, older x: Place, older b: Block) {
    match x
    case Held(p, i) => p in s.pools && i < |s.pools[p]| && s.pools[p][i].block == b
    case OnFreeList(i) => i < |s.free| && s.free[i].block == b
    case Released(i) => i < |s.released| && s.released[i] == b
  }

  // The blocks in some place are the blocks ever obtained, and none of them is
  // in two places.
  ghost predicate Located(s: State) {
    && (forall x, b :: At(s, x, b) ==> b in s.obtained)
    && (forall b :: b in s.obtained ==> exists x :: At(s, x, b))
    && (forall x, y, b :: At(s, x, b) && At(s, y, b) ==> x == y)
  }

  // The ranges tile the block from the end of its header up to `hi`.
  predicate Tiled(rs: seq<Range>, hi: nat) {
    if rs == [] then hi == HEADER
    else
      var last := rs[|rs| - 1];
      last.lo < last.hi == hi && Tiled(rs[..|rs| - 1], last.lo)
  }

  predicate FrameOk(f: Frame) {
    HEADER <= f.avail <= f.limit == f.block.size && Tiled(f.ranges, f.avail)
  }

  predicate FramesOk(p: Block, fs: seq<Frame>) {
    |fs| > 0 && fs[0].block == p && forall i :: 0 <= i < |fs| ==> FrameOk(fs[i])
  }

  predicate ChunkOk(c: Chunk) { HEADER <= c.limit == c.block.size }

  ghost predicate Inv(s: State) {
    && Located(s)
    && (forall p :: p in s.pools ==> FramesOk(p, s.pools[p]))
    && (forall i :: 0 <= i < |s.free| ==> ChunkOk(s.free[i]))
    && |s.free| <= s.nfree <= THRESHOLD
  }
}
