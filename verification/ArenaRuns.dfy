// What holds over every run of pool operations, on any number of pools.
module ArenaRuns {
  import opened Common
  import opened Arena
  import opened ArenaInvariant

  // mp_calloc and mp_strndup change the state as mp_alloc does. `spare` is the
  // block posix_memalign returns if the operation needs one.
  datatype Op =
    | NewOp(nbytes: nat, spare: Block)
    | AllocOp(pool: Block, nbytes: nat, spare: Block)
    | FreeOp(pool: Block)
    | DeleteOp(pool: Block, clean: bool)

  ghost predicate Enabled(s: State, op: Op) {
    match op
    case NewOp(n, base) => base !in s.obtained && base.size == HEADER + n
    case AllocOp(p, n, spare) =>
      && p in s.pools && |s.pools[p]| > 0 && n > 0
      && (NeedsBlock(s, p, n) ==> spare !in s.obtained && spare.size == HEADER + n)
    case FreeOp(p) => p in s.pools && |s.pools[p]| > 0
    case DeleteOp(p, _) => p in s.pools && |s.pools[p]| > 0
  }

  ghost function Step(s: State, op: Op): State
    requires Enabled(s, op)
  {
    match op
    case NewOp(n, base) => New(s, n, base)
    case AllocOp(p, n, spare) => Alloc(s, p, n, spare)
    case FreeOp(p) => Free(s, p)
    case DeleteOp(p, clean) => Delete(s, p, clean)
  }

  ghost predicate CanRun(s: State, ops: seq<Op>)
    decreases |ops|, 0
  {
    ops == [] || (CanRun(s, ops[..|ops| - 1]) && Enabled(Run(s, ops[..|ops| - 1]), ops[|ops| - 1]))
  }

  ghost function Run(s: State, ops: seq<Op>): State
    requires CanRun(s, ops)
    decreases |ops|, 1
  {
    if ops == [] then s else Step(Run(s, ops[..|ops| - 1]), ops[|ops| - 1])
  }

  lemma StepKeeps(s: State, op: Op)
    requires Inv(s) && Enabled(s, op)
    ensures Inv(Step(s, op))
  {
    match op
    case NewOp(n, base) => NewKeeps(s, n, base);
    case AllocOp(p, n, spare) => AllocKeeps(s, p, n, spare);
    case FreeOp(p) => FreeKeeps(s, p);
    case DeleteOp(p, clean) => DeleteKeeps(s, p, clean);
  }

  lemma {:induction false} RunKeeps(s: State, ops: seq<Op>)
    requires Inv(s) && CanRun(s, ops)
    ensures Inv(Run(s, ops))
    decreases |ops|
  {
    if ops != [] {
      RunKeeps(s, ops[..|ops| - 1]);
      StepKeeps(Run(s, ops[..|ops| - 1]), ops[|ops| - 1]);
    }
  }

  // Over every run, every block ever obtained is in exactly one place, and only
  // obtained blocks are in a place. In particular no block is released twice.
  lemma EveryBlockInOnePlace(ops: seq<Op>)
    requires CanRun(Start, ops)
    ensures var s := Run(Start, ops);
      && (forall b :: b in s.obtained <==> exists x :: At(s, x, b))
      && (forall x, y, b :: At(s, x, b) && At(s, y, b) ==> x == y)
      && (forall i, j :: 0 <= i < j < |s.released| ==> s.released[i] != s.released[j])
  {
    RunKeeps(Start, ops);
    var s := Run(Start, ops);
    forall i, j | 0 <= i < j < |s.released|
      ensures s.released[i] != s.released[j]
    {
      assert At(s, Released(i), s.released[i]) && At(s, Released(j), s.released[j]);
    }
  }

  // ---------------------------------------------------------------- live ranges

  // The k-th range cut from frame i of a pool.
  datatype Handle = Handle(pool: Block, i: nat, k: nat)

  predicate Live(s: State, older h: Handle) {
    h.pool in s.pools && h.i < |s.pools[h.pool]| && h.k < |s.pools[h.pool][h.i].ranges|
  }

  function BlockOf(s: State, h: Handle): Block
    requires Live(s, h)
  {
    s.pools[h.pool][h.i].block
  }

  function RangeOf(s: State, h: Handle): Range
    requires Live(s, h)
  {
    s.pools[h.pool][h.i].ranges[h.k]
  }

  lemma {:induction false} TiledBounds(rs: seq<Range>, hi: nat, k: nat)
    requires Tiled(rs, hi) && k < |rs|
    ensures HEADER <= rs[k].lo < rs[k].hi <= hi
    ensures forall j :: k < j < |rs| ==> rs[k].hi <= rs[j].lo
  {
    var n := |rs| - 1;
    TiledStart(rs[..n], rs[n].lo);
    if k < n {
      TiledBounds(rs[..n], rs[n].lo, k);
    }
  }

  lemma TiledStart(rs: seq<Range>, hi: nat)
    requires Tiled(rs, hi)
    ensures HEADER <= hi
  {
  }

  predicate Disjoint(a: Range, b: Range) { a.hi <= b.lo || b.hi <= a.lo }

  // Two different live ranges, of whatever pools, share no byte, and every live
  // range lies between the header of its block and the limit.
  lemma LiveDisjoint(s: State, g: Handle, h: Handle)
    requires Inv(s) && Live(s, g) && Live(s, h)
    ensures g != h && BlockOf(s, g) == BlockOf(s, h) ==> Disjoint(RangeOf(s, g), RangeOf(s, h))
    ensures HEADER <= RangeOf(s, g).lo < RangeOf(s, g).hi <= s.pools[g.pool][g.i].limit == BlockOf(s, g).size
  {
    var f := s.pools[g.pool][g.i];
    assert FrameOk(f) && FrameOk(s.pools[h.pool][h.i]);
    TiledBounds(f.ranges, f.avail, g.k);
    if BlockOf(s, g) == BlockOf(s, h) {
      assert At(s, Held(g.pool, g.i), f.block) && At(s, Held(h.pool, h.i), f.block);
      TiledBounds(f.ranges, f.avail, h.k);
    }
  }

  // The same in every state a run can reach.
  lemma LiveRangesDisjoint(ops: seq<Op>, g: Handle, h: Handle)
    requires CanRun(Start, ops)
    requires Live(Run(Start, ops), g) && Live(Run(Start, ops), h)
    ensures var s := Run(Start, ops);
      && (g != h && BlockOf(s, g) == BlockOf(s, h) ==> Disjoint(RangeOf(s, g), RangeOf(s, h)))
      && HEADER <= RangeOf(s, g).lo < RangeOf(s, g).hi <= BlockOf(s, g).size
  {
    RunKeeps(Start, ops);
    LiveDisjoint(Run(Start, ops), g, h);
  }

  function Bytes(rs: seq<Range>): int {
    if rs == [] then 0 else Bytes(rs[..|rs| - 1]) + (rs[|rs| - 1].hi - rs[|rs| - 1].lo)
  }

  lemma {:induction false} TiledSum(rs: seq<Range>, hi: nat)
    requires Tiled(rs, hi)
    ensures Bytes(rs) == hi - HEADER
  {
    if rs != [] { TiledSum(rs[..|rs| - 1], rs[|rs| - 1].lo); }
  }

  // In every frame, bytes handed out plus bytes left make up the whole block
  // behind its header; for the last frame the second number is mp_has_left.
  lemma CapacityConserved(ops: seq<Op>, p: Block, i: nat)
    requires CanRun(Start, ops)
    requires p in Run(Start, ops).pools && i < |Run(Start, ops).pools[p]|
    ensures var f := Run(Start, ops).pools[p][i];
      Bytes(f.ranges) + f.Left() == f.block.size - HEADER
  {
    RunKeeps(Start, ops);
    var f := Run(Start, ops).pools[p][i];
    assert FrameOk(f);
    TiledSum(f.ranges, f.avail);
  }

  // ------------------------------------------------------------ free list bounds

  function Gap(s: State): int { s.nfree - |s.free| }

  ghost predicate NoCleanDelete(ops: seq<Op>) {
    forall i :: 0 <= i < |ops| && ops[i].DeleteOp? ==> !ops[i].clean
  }

  // The counter never undercounts the free list and stays within the threshold;
  // the two drift apart only through a clean delete, and never back together.
  lemma {:induction false} FreeListBounded(ops: seq<Op>)
    requires CanRun(Start, ops)
    ensures var s := Run(Start, ops); |s.free| <= s.nfree <= 10
    ensures NoCleanDelete(ops) ==> Gap(Run(Start, ops)) == 0
    ensures ops != [] ==> Gap(Run(Start, ops[..|ops| - 1])) <= Gap(Run(Start, ops))
    decreases |ops|
  {
    RunKeeps(Start, ops);
    if ops != [] {
      var before := ops[..|ops| - 1];
      FreeListBounded(before);
      RunKeeps(Start, before);
      StepGap(Run(Start, before), ops[|ops| - 1]);
      assert NoCleanDelete(ops) ==> NoCleanDelete(before);
    }
  }

  lemma StepGap(s: State, op: Op)
    requires Inv(s) && Enabled(s, op)
    ensures Gap(s) <= Gap(Step(s, op))
    ensures !(op.DeleteOp? && op.clean) ==> Gap(s) == Gap(Step(s, op))
    ensures op.DeleteOp? && op.clean ==> Step(s, op).free == s.free && Step(s, op).nfree == THRESHOLD
  {
  }

  // ------------------------------------------------------------ what mp_alloc does

  // mp_alloc links at most one chunk more than the free list holds, and none if
  // the request fits. All linked chunks but the last are recycled ones that were
  // too small: they stay with the pool, empty, with the limit they were created
  // with. The last one is the first recycled chunk with room, or else a new block
  // of exactly the needed size. The range is the next one of the block that is
  // current then, and fits; older frames, other pools and released blocks are as
  // before.
  lemma AllocLinks(s: State, p: Block, nbytes: nat, spare: Block)
    requires Inv(s) && Enabled(s, AllocOp(p, nbytes, spare))
    ensures
      var t := Alloc(s, p, nbytes, spare);
      var links := |t.pools[p]| - |s.pools[p]|;
      && 0 <= links <= |s.free| + 1 && (links == 0 <==> nbytes <= Top(s.pools[p]).Left())
      && LinksFrames(s, p, nbytes, spare, t.pools[p], links)
      && t.pools == s.pools[p := t.pools[p]]
      && t.free == s.free[..|s.free| - Min(links, |s.free|)]
      && t.nfree == s.nfree - Min(links, |s.free|)
      && t.obtained == s.obtained + (if links > |s.free| then {spare} else {})
      && t.released == s.released
  {
    if Fits(s, p, nbytes) {
      assert FrameOk(Top(s.pools[p]));
    } else {
      hide LinksFrames;
      AllocFrames(s, p, nbytes, spare);
    }
  }

  // The frames `gs` of the pool after linking that many chunks.
  predicate LinksFrames(s: State, p: Block, nbytes: nat, spare: Block, gs: seq<Frame>, links: nat)
    requires p in s.pools && |s.pools[p]| > 0 && |gs| == |s.pools[p]| + links && links <= |s.free| + 1
  {
    var fs := s.pools[p];
    if links == 0 then gs[..|fs| - 1] == fs[..|fs| - 1] && CutsNext(Top(fs), Top(gs), nbytes)
    else
      var linked := gs[|fs|..];
      && gs[..|fs|] == fs
      && (forall i :: 0 <= i < links - 1 ==> SkippedChunk(linked[i], Nth(s.free, i).block, nbytes))
      && CutsNext(EmptyFrame(if links <= |s.free| then Nth(s.free, links - 1).block else spare), Top(gs), nbytes)
  }

  lemma AllocFrames(s: State, p: Block, nbytes: nat, spare: Block)
    requires Inv(s) && Enabled(s, AllocOp(p, nbytes, spare)) && !Fits(s, p, nbytes)
    ensures
      var gs, k := Alloc(s, p, nbytes, spare).pools[p], Misfits(s.free, nbytes);
      |gs| == |s.pools[p]| + k + 1 && LinksFrames(s, p, nbytes, spare, gs, k + 1)
  {
    var k := Misfits(s.free, nbytes);
    assert forall i :: 0 <= i < |s.free| ==> ChunkOk(Nth(s.free, i));
    hide Bumped, Inv;
    if k < |s.free| {
      RecycledFrames(s, p, nbytes, spare);
    } else {
      LinkedFrames(s, p, nbytes, spare);
    }
  }

  lemma AllButLast(fs: seq<Frame>, gs: seq<Frame>)
    requires gs != []
    ensures (fs + gs)[..|fs + gs| - 1] == fs + gs[..|gs| - 1]
  {
  }

  lemma RecycledFrames(s: State, p: Block, nbytes: nat, spare: Block)
    requires p in s.pools && |s.pools[p]| > 0 && !Fits(s, p, nbytes) && Misfits(s.free, nbytes) < |s.free|
    requires forall i :: 0 <= i < |s.free| ==> ChunkOk(Nth(s.free, i))
    ensures
      var gs, k := Alloc(s, p, nbytes, spare).pools[p], Misfits(s.free, nbytes);
      |gs| == |s.pools[p]| + k + 1 && LinksFrames(s, p, nbytes, spare, gs, k + 1)
  {
    hide Bumped;
    var k := Misfits(s.free, nbytes);
    var t := Recycled(s, p, k + 1);
    assert Alloc(s, p, nbytes, spare) == Bumped(t, p, nbytes);
    BumpedFrames(t, p, nbytes);
    var gs := Bumped(t, p, nbytes).pools[p];
    AllButLast(s.pools[p], TakenFrames(s.free, k + 1));
    assert gs[|s.pools[p]|..] == TakenFrames(s.free, k + 1)[..k] + [Top(gs)];
    assert gs[..|s.pools[p]|] == s.pools[p];
  }

  lemma LinkedFrames(s: State, p: Block, nbytes: nat, spare: Block)
    requires p in s.pools && |s.pools[p]| > 0 && !Fits(s, p, nbytes) && Misfits(s.free, nbytes) == |s.free|
    requires forall i :: 0 <= i < |s.free| ==> ChunkOk(Nth(s.free, i))
    requires spare.size == HEADER + nbytes
    ensures
      var gs, k := Alloc(s, p, nbytes, spare).pools[p], |s.free|;
      |gs| == |s.pools[p]| + k + 1 && LinksFrames(s, p, nbytes, spare, gs, k + 1)
  {
    hide Bumped;
    var t := Linked(Recycled(s, p, |s.free|), p, nbytes, spare);
    assert Alloc(s, p, nbytes, spare) == Bumped(t, p, nbytes);
    BumpedFrames(t, p, nbytes);
    var gs := Bumped(t, p, nbytes).pools[p];
    assert gs[..|gs| - 1] == s.pools[p] + TakenFrames(s.free, |s.free|);
    assert gs[|s.pools[p]|..] == TakenFrames(s.free, |s.free|) + [Top(gs)];
    assert gs[..|s.pools[p]|] == s.pools[p];
  }

  lemma BumpedFrames(s: State, p: Block, nbytes: nat)
    requires p in s.pools && |s.pools[p]| > 0 && Fits(s, p, nbytes)
    ensures p in Bumped(s, p, nbytes).pools
    ensures var fs, gs := s.pools[p], Bumped(s, p, nbytes).pools[p];
      |gs| == |fs| && gs[..|gs| - 1] == fs[..|fs| - 1] && CutsNext(Top(fs), Top(gs), nbytes)
  {
  }

  function EmptyFrame(b: Block): Frame { Frame(b, HEADER, b.size, []) }

  // The next nbytes of a frame have been handed out.
  predicate CutsNext(f: Frame, g: Frame, nbytes: nat) {
    && g.block == f.block && g.limit == f.limit && g.avail == f.avail + nbytes <= g.limit
    && g.ranges == f.ranges + [Range(f.avail, f.avail + nbytes)]
  }

  // A recycled chunk that was linked but is too small for the request.
  predicate SkippedChunk(f: Frame, b: Block, nbytes: nat) {
    f == EmptyFrame(b) && f.Left() < nbytes
  }

  // mp_alloc keeps every range that is live, in every pool, and hands out bytes
  // that no live range covers.
  lemma AllocKeepsLive(s: State, p: Block, nbytes: nat, spare: Block, h: Handle)
    requires Inv(s) && Enabled(s, AllocOp(p, nbytes, spare)) && Live(s, h)
    ensures
      var t := Alloc(s, p, nbytes, spare);
      var top := Top(t.pools[p]);
      && Live(t, h) && BlockOf(t, h) == BlockOf(s, h) && RangeOf(t, h) == RangeOf(s, h)
      && (BlockOf(s, h) == top.block ==> Disjoint(RangeOf(s, h), Range(top.avail - nbytes, top.avail)))
  {
    hide Inv, Alloc;
    AllocKeeps(s, p, nbytes, spare);
    var t := Alloc(s, p, nbytes, spare);
    var cut := AllocCut(s, p, nbytes, spare, h);
    LiveDisjoint(t, h, cut);
  }

  // The range handed out is the last one of the last frame, and no older one.
  ghost predicate CutFrom(s: State, t: State, p: Block, nbytes: nat, h: Handle, cut: Handle)
    requires Live(s, h)
  {
    && p in t.pools && |t.pools[p]| > 0
    && var top := Top(t.pools[p]);
    && Live(t, h) && BlockOf(t, h) == BlockOf(s, h) && RangeOf(t, h) == RangeOf(s, h)
    && Live(t, cut) && cut != h && BlockOf(t, cut) == top.block
    && nbytes <= top.avail && RangeOf(t, cut) == Range(top.avail - nbytes, top.avail)
  }

  lemma BumpedCut(s: State, p: Block, nbytes: nat, h: Handle) returns (cut: Handle)
    requires p in s.pools && |s.pools[p]| > 0 && Live(s, h)
    ensures CutFrom(s, Bumped(s, p, nbytes), p, nbytes, h, cut)
  {
    cut := Handle(p, |s.pools[p]| - 1, |Top(s.pools[p]).ranges|);
  }

  lemma AllocCut(s: State, p: Block, nbytes: nat, spare: Block, h: Handle) returns (cut: Handle)
    requires p in s.pools && |s.pools[p]| > 0 && Live(s, h)
    ensures CutFrom(s, Alloc(s, p, nbytes, spare), p, nbytes, h, cut)
  {
    hide Bumped;
    var k := Misfits(s.free, nbytes);
    if Fits(s, p, nbytes) {
      cut := BumpedCut(s, p, nbytes, h);
    } else if k < |s.free| {
      cut := BumpedCut(Recycled(s, p, k + 1), p, nbytes, h);
    } else {
      cut := BumpedCut(Linked(Recycled(s, p, k), p, nbytes, spare), p, nbytes, h);
    }
  }
}
