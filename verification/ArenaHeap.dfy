// main/mem/mem.c in its own form: pool headers are mutable objects, the free
// list is threaded through them, and every loop follows the pointers. Each
// method is proved to compute the closed form of Arena.dfy.
module ArenaHeap {
  import opened Common
  import opened Arena
  import A = Arena
  import opened ArenaInvariant
  import opened ArenaRuns
  import opened ArenaSizes

  // The contents of a struct mem_pool.
  datatype Header = Header(prev: Block?, avail: Ptr, limit: Ptr)

  function HeaderOf(b: Block): Header
    reads b
  {
    Header(b.prev, b.avail, b.limit)
  }

  // The header a pool has while frame k is its last one.
  function HeaderFor(fs: seq<Frame>, k: nat): Header
    requires k < |fs|
  {
    Header(if k == 0 then null else fs[k].block, Ptr(fs[k].block, fs[k].avail), Ptr(fs[k].block, fs[k].limit))
  }

  // What the header of the block in place x must hold. The base block of a pool
  // holds the pool's header; its i-th chunk holds the copy made when the chunk
  // was linked; a free chunk holds its own limit and the next free chunk.
  predicate HeaderOk(s: State, older x: Place, h: Header) {
    match x
    case Held(p, i) =>
      && p in s.pools && i < |s.pools[p]|
      && h == HeaderFor(s.pools[p], if i == 0 then |s.pools[p]| - 1 else i - 1)
    case OnFreeList(i) =>
      && i < |s.free|
      && h.limit == Ptr(s.free[i].block, s.free[i].limit)
      && h.prev == (if i == 0 then null else s.free[i - 1].block)
    case Released(i) => i < |s.released|
  }

  // freechunks
  function HeadOf(free: seq<Chunk>): Block? {
    if free == [] then null else Nth(free, 0).block
  }

  ghost predicate Stored(s: State, hs: map<Block, Header>) {
    forall x, b :: At(s, x, b) ==> b in hs && HeaderOk(s, x, hs[b])
  }

  lemma BaseAt(s: State, p: Block)
    requires Inv(s) && p in s.pools
    ensures Located(s) && At(s, Held(p, 0), p) && p in s.obtained && |s.pools[p]| > 0
  {
    assert At(s, Held(p, 0), p);
  }

  lemma TopAt(s: State, p: Block)
    requires Inv(s) && p in s.pools
    ensures |s.pools[p]| > 0 && Top(s.pools[p]).block in s.obtained && FrameOk(Top(s.pools[p]))
  {
    assert At(s, Held(p, |s.pools[p]| - 1), Top(s.pools[p]).block);
  }

  lemma NewStored(s: State, hs: map<Block, Header>, nbytes: nat, base: Block)
    requires Inv(s) && Stored(s, hs) && base !in s.obtained
    ensures Stored(New(s, nbytes, base), hs[base := Header(null, Ptr(base, HEADER), Ptr(base, HEADER + nbytes))])
  {
    var t := New(s, nbytes, base);
    forall x, b | At(t, x, b)
      ensures x == Held(base, 0) || (b != base && At(s, x, b) && (HeaderOk(s, x, hs[b]) ==> HeaderOk(t, x, hs[b])))
    {
      if x != Held(base, 0) { assert At(s, x, b); }
    }
  }

  // Linking chunk c: its header becomes a copy of the pool's header.
  function Spliced(hs: map<Block, Header>, p: Block, c: Block, limit: Ptr): map<Block, Header>
    requires p in hs
  {
    hs[c := hs[p]][p := Header(c, Ptr(c, HEADER), limit)]
  }

  lemma RecycledFacts(s: State, p: Block)
    requires p in s.pools && s.free != []
    ensures var t, c := Recycled(s, p, 1), Nth(s.free, 0);
      && t.pools == s.pools[p := s.pools[p] + [Opened(c)]]
      && t.free == s.free[..|s.free| - 1] && t.nfree == s.nfree - 1
      && t.released == s.released && t.obtained == s.obtained
  {
    assert TakenFrames(s.free, 1) == [Opened(Nth(s.free, 0))];
  }

  lemma RecycledStored(s: State, hs: map<Block, Header>, p: Block)
    requires Located(s) && At(s, Held(p, 0), p) && Stored(s, hs) && s.free != []
    ensures var c := Nth(s.free, 0).block;
      && p in hs && c in hs && p != c && c in s.obtained
      && hs[c].prev == HeadOf(s.free[..|s.free| - 1])
      && Stored(Recycled(s, p, 1), Spliced(hs, p, c, hs[c].limit))
  {
    hide Recycled;
    RecycledFacts(s, p);
    var t, n, c := Recycled(s, p, 1), |s.pools[p]|, Nth(s.free, 0).block;
    assert At(s, OnFreeList(|s.free| - 1), c);
    var hs' := Spliced(hs, p, c, hs[c].limit);
    forall x, b | At(t, x, b)
      ensures b in hs' && HeaderOk(t, x, hs'[b])
    {
      if x != Held(p, n) { assert At(s, x, b); }
    }
  }

  lemma LinkedStored(s: State, hs: map<Block, Header>, p: Block, nbytes: nat, spare: Block)
    requires Located(s) && At(s, Held(p, 0), p) && Stored(s, hs) && spare !in s.obtained
    ensures p in hs && p != spare
    ensures Stored(Linked(s, p, nbytes, spare), Spliced(hs, p, spare, Ptr(spare, HEADER + nbytes)))
    ensures var t := Linked(s, p, nbytes, spare);
      t.nfree == s.nfree && t.free == s.free && t.obtained == s.obtained + {spare}
  {
    var t, n := Linked(s, p, nbytes, spare), |s.pools[p]|;
    forall x, b | At(t, x, b)
      ensures x == Held(p, 0) || x == Held(p, n)
        || (b != p && b != spare && At(s, x, b) && (HeaderOk(s, x, hs[b]) ==> HeaderOk(t, x, hs[b])))
    {
      if x != Held(p, n) { assert At(s, x, b); }
    }
  }

  // Linking chunks one at a time until the request fits ends where mp_alloc does.
  lemma AllocByLinks(s: State, p: Block, nbytes: nat, spare: Block, k: nat, t: State)
    requires p in s.pools && |s.pools[p]| > 0 && k <= Misfits(s.free, nbytes) + 1
    requires k <= |s.free| ==> t == Recycled(s, p, k)
    requires k > |s.free| ==> t == Linked(Recycled(s, p, |s.free|), p, nbytes, spare)
    requires k > 0 ==> !Fits(s, p, nbytes)
    requires Fits(t, p, nbytes)
    ensures NeedsBlock(s, p, nbytes) ==> k > |s.free|
    ensures Bumped(t, p, nbytes) == A.Alloc(s, p, nbytes, spare)
  {
    if k == 0 {
      RecycledNone(s, p);
    } else if k <= |s.free| {
      RecycledTop(s, p, k);
    }
  }

  lemma BumpedStored(s: State, hs: map<Block, Header>, p: Block, nbytes: nat)
    requires Located(s) && At(s, Held(p, 0), p) && Stored(s, hs)
    ensures p in hs && hs[p] == HeaderFor(s.pools[p], |s.pools[p]| - 1)
    ensures var top := Top(s.pools[p]);
      Stored(Bumped(s, p, nbytes), hs[p := hs[p].(avail := Ptr(top.block, top.avail + nbytes))])
  {
    var t := Bumped(s, p, nbytes);
    forall x, b | At(t, x, b)
      ensures x == Held(p, 0) || (b != p && At(s, x, b) && (HeaderOk(s, x, hs[b]) ==> HeaderOk(t, x, hs[b])))
    {
      assert At(s, x, b);
    }
  }

  // Unlinking chunk c: the pool gets its old header back from it.
  function Unspliced(hs: map<Block, Header>, p: Block, c: Block, kept: bool, next: Block?): map<Block, Header>
    requires p in hs && c in hs
  {
    if kept then hs[c := Header(next, hs[c].avail, hs[p].limit)][p := hs[c]] else hs[p := hs[c]]
  }

  lemma UnwoundStored(s: State, hs: map<Block, Header>, p: Block)
    requires Located(s) && At(s, Held(p, 0), p) && Stored(s, hs) && |s.pools[p]| > 1
    ensures var c := Top(s.pools[p]).block;
      && p in hs && c in hs && p != c && c in s.obtained
      && hs[p].prev == c
      && Stored(Unwound(s, p, 1), Unspliced(hs, p, c, s.nfree < THRESHOLD, HeadOf(s.free)))
  {
    hide Unwound;
    var t, n, c := Unwound(s, p, 1), |s.pools[p]| - 1, Top(s.pools[p]).block;
    assert At(s, Held(p, n), c);
    var hs' := Unspliced(hs, p, c, s.nfree < THRESHOLD, HeadOf(s.free));
    UnwoundFacts(s, p);
    forall x, b | At(t, x, b)
      ensures b in hs' && HeaderOk(t, x, hs'[b])
    {
      var to := if s.nfree < THRESHOLD then OnFreeList(|s.free|) else Released(|s.released|);
      if x != to {
        assert At(s, x, b);
        if x != Held(p, 0) { UnwoundHeader(s, p, x, b, hs[b]); }
      }
    }
  }

  lemma UnwoundFacts(s: State, p: Block)
    requires p in s.pools && |s.pools[p]| > 1
    ensures var t, c := Unwound(s, p, 1), Top(s.pools[p]);
      && t.obtained == s.obtained
      && t.pools == s.pools[p := s.pools[p][..|s.pools[p]| - 1]]
      && t.nfree == (if s.nfree < THRESHOLD then s.nfree + 1 else s.nfree)
      && t.free == (if s.nfree < THRESHOLD then s.free + [Chunk(c.block, c.limit)] else s.free)
      && t.released == (if s.nfree < THRESHOLD then s.released else s.released + [c.block])
      && HeadOf(t.free) == (if s.nfree < THRESHOLD then c.block else HeadOf(s.free))
  {
  }

  lemma UnwoundHeader(s: State, p: Block, x: Place, b: Block, h: Header)
    requires p in s.pools && |s.pools[p]| > 1 && x != Held(p, 0)
    requires At(s, x, b) && HeaderOk(s, x, h) && At(Unwound(s, p, 1), x, b)
    ensures HeaderOk(Unwound(s, p, 1), x, h)
  {
  }

  lemma CleanKeeps(s: State, hs: map<Block, Header>)
    requires Inv(s) && Stored(s, hs)
    ensures Inv(s.(nfree := THRESHOLD)) && Stored(s.(nfree := THRESHOLD), hs)
  {
    var t := s.(nfree := THRESHOLD);
    assert forall x, b :: At(t, x, b) <==> At(s, x, b);
    assert forall b :: b in t.obtained ==> exists x :: At(s, x, b) && At(t, x, b);
  }

  // The base block leaves the pool; no header changes.
  lemma DeletedStored(s: State, hs: map<Block, Header>, p: Block)
    requires Located(s) && At(s, Held(p, 0), p) && Stored(s, hs) && |s.pools[p]| == 1
    ensures Stored(s.(pools := s.pools - {p}, released := s.released + [p]), hs)
  {
    var t := s.(pools := s.pools - {p}, released := s.released + [p]);
    forall x, b | At(t, x, b)
      ensures x == Released(|s.released|) || (At(s, x, b) && (HeaderOk(s, x, hs[b]) ==> HeaderOk(t, x, hs[b])))
    {
    }
  }

  // Every range live in state s, of whatever pool, is still live in t, and the
  // nbytes at r are none of its bytes.
  ghost predicate LiveKept(s: State, t: State, r: Ptr, nbytes: nat) {
    forall h :: Live(s, h) ==>
      && Live(t, h) && BlockOf(t, h) == BlockOf(s, h) && RangeOf(t, h) == RangeOf(s, h)
      && (BlockOf(s, h) == r.block ==> Disjoint(RangeOf(s, h), Range(r.off, r.off + nbytes)))
  }

  lemma AllocLiveKept(s: State, p: Block, nbytes: nat, spare: Block, r: Ptr)
    requires Inv(s) && Enabled(s, AllocOp(p, nbytes, spare))
    requires
      var t := A.Alloc(s, p, nbytes, spare);
      && p in t.pools && |t.pools[p]| > 0
      && r.block == Top(t.pools[p]).block && r.off + nbytes == Top(t.pools[p]).avail
    ensures LiveKept(s, A.Alloc(s, p, nbytes, spare), r, nbytes)
  {
    forall h | Live(s, h) {
      AllocKeepsLive(s, p, nbytes, spare, h);
    }
  }

  class Heap {
    var freechunks: Block?
    var nfree: int
    ghost var st: State
    // What is stored in the headers of the blocks obtained so far.
    ghost var headers: map<Block, Header>

    ghost predicate Valid()
      reads this, st.obtained
    {
      && Inv(st) && Stored(st, headers)
      && (forall b :: b in st.obtained ==> b in headers && headers[b] == HeaderOf(b))
      && nfree == st.nfree
      && freechunks == HeadOf(st.free)
      && SizesOk(st)
      && (forall b :: b in st.obtained ==> b.data.Length == b.size)
      && (forall b, c :: b in st.obtained && c in st.obtained && b.data == c.data ==> b == c)
    }

    constructor ()
      ensures Valid() && st == Start
    {
      freechunks, nfree, st, headers := null, 0, Start, map[];
    }

    method New(nbytes: nat) returns (mp: Block)
      requires Valid() && HEADER + nbytes < SIZE_MODULUS
      modifies this
      ensures Valid() && fresh(mp) && fresh(mp.data) && mp.size == HEADER + nbytes
      ensures st == A.New(old(st), nbytes, mp)
    {
      var size := SizeSum(HEADER, nbytes);
      mp := new Block(size);
      mp.avail := Ptr(mp, HEADER);
      mp.limit := Ptr(mp, size);
      mp.prev := null;
      NewKeeps(st, nbytes, mp);
      NewStored(st, headers, nbytes, mp);
      st, headers := A.New(st, nbytes, mp), headers[mp := HeaderOf(mp)];
    }

    // Chunk ptr becomes the current block of the pool.
    static method Splice(mp: Block, ptr: Block, limit: Ptr)
      requires mp != ptr
      modifies mp, ptr
      ensures HeaderOf(ptr) == old(HeaderOf(mp)) && HeaderOf(mp) == Header(ptr, Ptr(ptr, HEADER), limit)
    {
      ptr.prev, ptr.avail, ptr.limit := mp.prev, mp.avail, mp.limit;
      mp.avail := Ptr(ptr, HEADER);
      mp.limit := limit;
      mp.prev := ptr;
    }

    // One turn of the loop of mp_alloc.
    method LinkChunk(mp: Block, nbytes: nat) returns (ghost spare: Block)
      requires Valid() && mp in st.pools && HEADER + nbytes < SIZE_MODULUS
      modifies this, st.obtained
      ensures Valid()
      ensures old(st).free != [] ==> st == Recycled(old(st), mp, 1)
      ensures old(st).free == [] ==>
        fresh(spare) && fresh(spare.data) && spare.size == HEADER + nbytes && st == Linked(old(st), mp, nbytes, spare)
      ensures Grown(old(st), st)
    {
      var ptr: Block;
      var limit: Ptr;
      spare := mp;
      hide Inv, Located, Stored, At, HeaderOk;
      BaseAt(st, mp);
      if freechunks != null {
        RecycledStored(st, headers, mp);
        RecycledFacts(st, mp);
        RecycleOneKeeps(st, mp);
        ptr := freechunks;
        freechunks := freechunks.prev;
        nfree := nfree - 1;
        limit := ptr.limit;
        st := Recycled(st, mp, 1);
      } else {
        var size := SizeSum(HEADER, nbytes);
        ptr := new Block(size);
        spare := ptr;
        limit := Ptr(ptr, size);
        LinkedStored(st, headers, mp, nbytes, ptr);
        LinkedKeeps(st, mp, nbytes, ptr);
        st := Linked(st, mp, nbytes, ptr);
      }
      Splice(mp, ptr, limit);
      headers := Spliced(headers, mp, ptr, limit);
    }

    // mp_has_left
    function HasLeft(mp: Block): (left: nat)
      requires Valid() && mp in st.pools
      reads this, st.obtained, mp
      ensures left == Top(st.pools[mp]).Left()
    {
      assert At(st, Held(mp, 0), mp) && At(st, Held(mp, |st.pools[mp]| - 1), Top(st.pools[mp]).block);
      SizeDiff(mp.limit.off, mp.avail.off)
    }

    // r points to the last nbytes handed out by the pool, inside an obtained block.
    ghost predicate Returned(mp: Block, r: Ptr, nbytes: nat)
      reads this
    {
      && mp in st.pools && |st.pools[mp]| > 0
      && r.block == Top(st.pools[mp]).block && r.off + nbytes == Top(st.pools[mp]).avail
      && r.block in st.obtained && r.off + nbytes <= r.block.data.Length
    }

    // All blocks of s are still there, and the others are new.
    static twostate predicate Grown(s: State, new t: State) {
      s.obtained <= t.obtained && forall b :: b in t.obtained ==> b in s.obtained || (fresh(b) && fresh(b.data))
    }

    // The last two lines of mp_alloc.
    method Bump(mp: Block, nbytes: nat) returns (r: Ptr)
      requires Valid() && mp in st.pools && 0 < nbytes <= HasLeft(mp)
      modifies this, mp
      ensures Valid() && st == Bumped(old(st), mp, nbytes)
      ensures Returned(mp, r, nbytes) && st.obtained == old(st.obtained)
    {
      hide Inv, Located, Stored, At, HeaderOk;
      BaseAt(st, mp);
      BumpedStored(st, headers, mp, nbytes);
      BumpedKeeps(st, mp, nbytes);
      st := Bumped(st, mp, nbytes);
      mp.avail := Ptr(mp.avail.block, mp.avail.off + nbytes);
      headers := headers[mp := HeaderOf(mp)];
      r := Ptr(mp.avail.block, mp.avail.off - nbytes);
      TopAt(st, mp);
    }

    // The loop of mp_alloc: chunks are linked until the request fits. `links` is
    // their number.
    method LinkUntilFits(mp: Block, nbytes: nat) returns (ghost spare: Block, ghost links: nat)
      requires Valid() && mp in st.pools && |st.pools[mp]| > 0 && HEADER + nbytes < SIZE_MODULUS
      modifies this, st.obtained
      ensures Valid() && Grown(old(st), st) && mp in st.pools && |st.pools[mp]| > 0 && Fits(st, mp, nbytes)
      ensures links > 0 ==> !Fits(old(st), mp, nbytes)
      ensures links <= Misfits(old(st).free, nbytes) + 1
      ensures links <= |old(st).free| ==> st == Recycled(old(st), mp, links)
      ensures links > |old(st).free| ==> fresh(spare) && fresh(spare.data) && spare.size == HEADER + nbytes
      ensures links > |old(st).free| ==>
        st == Linked(Recycled(old(st), mp, |old(st).free|), mp, nbytes, spare)
    {
      hide Inv, Located, Stored, At, HeaderOk, Recycled, Linked;
      ghost var was, misfits := st, Misfits(st.free, nbytes);
      links := 0;
      spare := mp;
      RecycledNone(st, mp);
      RecycledTop(st, mp, |st.free|);
      while nbytes > HasLeft(mp)
        invariant Valid() && mp in st.pools && |st.pools[mp]| > 0
        invariant Grown(old(st), st)
        invariant links > 0 ==> !Fits(was, mp, nbytes)
        invariant links <= misfits + 1 && (links == misfits + 1 ==> Fits(st, mp, nbytes))
        invariant links <= |was.free| ==> st == Recycled(was, mp, links)
        invariant links > |was.free| ==> fresh(spare) && fresh(spare.data) && spare.size == HEADER + nbytes
        invariant links > |was.free| ==> st == Linked(Recycled(was, mp, |was.free|), mp, nbytes, spare)
        decreases |was.free| + 1 - links
      {
        RecycledTop(was, mp, links);
        if links < |was.free| {
          RecycleOne(was, mp, links);
          RecycledTop(was, mp, links + 1);
        }
        spare := LinkChunk(mp, nbytes);
        LinkedTop(Recycled(was, mp, |was.free|), mp, nbytes, spare);
        links := links + 1;
      }
    }

    // mp_alloc. `spare` is the block posix_memalign returned, if it was called.
    method Alloc(mp: Block, nbytes: nat) returns (r: Ptr, ghost spare: Block)
      requires Valid() && mp in st.pools && nbytes > 0 && HEADER + nbytes < SIZE_MODULUS
      modifies this, st.obtained
      ensures Valid()
      ensures NeedsBlock(old(st), mp, nbytes) ==> fresh(spare) && fresh(spare.data) && spare.size == HEADER + nbytes
      ensures st == A.Alloc(old(st), mp, nbytes, spare)
      ensures Returned(mp, r, nbytes) && Grown(old(st), st) && LiveKept(old(st), st, r, nbytes)
    {
      hide Inv, Located, Stored, At, HeaderOk, Recycled, Linked, Bumped, A.Alloc, LiveKept;
      ghost var was, links := st, 0;
      BaseAt(st, mp);
      RecycledTop(st, mp, |st.free|);
      spare, links := LinkUntilFits(mp, nbytes);
      BaseAt(st, mp);
      AllocByLinks(was, mp, nbytes, spare, links, st);
      r := Bump(mp, nbytes);
      AllocLiveKept(was, mp, nbytes, spare, r);
    }

    // The newest chunk goes to the free list, or is released if that is full;
    // the pool's header is restored from it.
    method Unsplice(mp: Block, ghost c: Block)
      requires mp.prev == c && mp != c
      modifies `freechunks, `nfree, mp, c
      ensures HeaderOf(mp) == old(HeaderOf(c))
      ensures HeaderOf(c) == old(if nfree < THRESHOLD then Header(freechunks, c.avail, mp.limit) else HeaderOf(c))
      ensures freechunks == (if old(nfree) < THRESHOLD then c else old(freechunks))
      ensures nfree == (if old(nfree) < THRESHOLD then old(nfree) + 1 else old(nfree))
    {
      var tmp := HeaderOf(mp.prev);
      if nfree < THRESHOLD {
        mp.prev.prev := freechunks;
        freechunks := mp.prev;
        nfree := nfree + 1;
        freechunks.limit := mp.limit;
      }
      mp.prev, mp.avail, mp.limit := tmp.prev, tmp.avail, tmp.limit;
    }

    // One turn of the loop of mp_free.
    method UnlinkChunk(mp: Block)
      requires Valid() && mp in st.pools && |st.pools[mp]| > 1
      modifies this, st.obtained
      ensures Valid() && st == Unwound(old(st), mp, 1)
    {
      hide Inv, Located, Stored, At, HeaderOk, Unwound, Top;
      BaseAt(st, mp);
      UnwoundStored(st, headers, mp);
      UnwoundFacts(st, mp);
      UnwindOneKeeps(st, mp);
      headers := Unspliced(headers, mp, Top(st.pools[mp]).block, nfree < THRESHOLD, freechunks);
      Unsplice(mp, Top(st.pools[mp]).block);
      st := Unwound(st, mp, 1);
    }

    // mp_free
    method Free(mp: Block)
      requires Valid() && mp in st.pools && |st.pools[mp]| > 0
      modifies this, st.obtained
      ensures Valid() && st == A.Free(old(st), mp)
      ensures mp in st.pools && st.pools[mp] == [old(st).pools[mp][0]]
      ensures HeaderOf(mp) == HeaderFor(old(st).pools[mp], 0)
    {
      hide Inv, Located, Stored, At, HeaderOk;
      ghost var was, j := st, 0;
      UnwoundNone(st, mp);
      PoolHeader(mp);
      while mp.prev != null
        invariant Valid() && mp in st.pools && st.obtained == was.obtained
        invariant j < |was.pools[mp]| && st == Unwound(was, mp, j)
        invariant HeaderOf(mp) == HeaderFor(st.pools[mp], |st.pools[mp]| - 1)
        decreases |was.pools[mp]| - j
      {
        UnlinkChunk(mp);
        UnwindOne(was, mp, j);
        j := j + 1;
        PoolHeader(mp);
      }
    }

    // The pool's own header describes its last frame.
    lemma PoolHeader(mp: Block)
      requires Valid() && mp in st.pools
      ensures mp in st.obtained && |st.pools[mp]| > 0
      ensures HeaderOf(mp) == HeaderFor(st.pools[mp], |st.pools[mp]| - 1)
    {
      BaseAt(st, mp);
    }

    // mp_delete; the caller's pointer to the pool is not part of the heap.
    method Delete(mp: Block, clean: bool)
      requires Valid() && mp in st.pools && |st.pools[mp]| > 0
      modifies this, st.obtained
      ensures Valid() && st == A.Delete(old(st), mp, clean)
    {
      hide Inv, Located, Stored, At, HeaderOk;
      DeleteKeeps(st, mp, clean);
      if clean {
        nfree := THRESHOLD;
        CleanKeeps(st, headers);
        st := st.(nfree := THRESHOLD);
      }
      Free(mp);
      BaseAt(st, mp);
      DeletedStored(st, headers, mp);
      st := st.(pools := st.pools - {mp}, released := st.released + [mp]);
    }

    // memset(ptr, 0, n)
    static method MemZero(data: array<byte>, lo: nat, n: nat)
      requires lo + n <= data.Length
      modifies data
      ensures forall k :: 0 <= k < data.Length ==> data[k] == if lo <= k < lo + n then 0 else old(data[k])
    {
      forall k | lo <= k < lo + n {
        data[k] := 0;
      }
    }

    // Of the bytes obtained in state s, only [lo, hi) of block b have changed since.
    static twostate predicate OnlyChanged(s: State, new b: Block?, lo: nat, hi: nat)
      reads set c | c in s.obtained :: c.data
    {
      forall c, k :: c in s.obtained && 0 <= k < c.data.Length && !(c == b && lo <= k < hi) ==>
        c.data[k] == old(c.data[k])
    }

    // mp_calloc; the product is computed in size_t. The range covers what the
    // caller asked for exactly if the product does not wrap.
    method Calloc(mp: Block, count: nat, nbytes: nat) returns (r: Ptr, ghost spare: Block)
      requires Valid() && mp in st.pools && count > 0
      requires 0 < SizeProduct(count, nbytes) < SIZE_MODULUS - HEADER
      modifies this, st.obtained, set b | b in st.obtained :: b.data
      ensures var total := SizeProduct(count, nbytes);
        && Valid() && st == A.Alloc(old(st), mp, total, spare)
        && Returned(mp, r, total) && (forall k :: r.off <= k < r.off + total ==> r.block.data[k] == 0)
        && OnlyChanged(old(st), r.block, r.off, r.off + total) && Grown(old(st), st)
      ensures LiveKept(old(st), st, r, SizeProduct(count, nbytes))
      ensures r.off + count * nbytes <= Top(st.pools[mp]).avail <==> count * nbytes < SIZE_MODULUS
    {
      ProductExact(count, nbytes);
      hide Inv, Located, Stored, At, HeaderOk, A.Alloc, SizeProduct, LiveKept;
      BaseAt(st, mp);
      var total := SizeProduct(count, nbytes);
      r, spare := Alloc(mp, total);
      MemZero(r.block.data, r.off, total);
    }

    // memcpy(ret, s1, n); ret[n] = 0
    static method CopyString(data: array<byte>, lo: nat, s1: seq<byte>, n: nat)
      requires n <= |s1| && lo + n < data.Length
      modifies data
      ensures data[lo..lo + n + 1] == s1[..n] + [0]
      ensures forall k :: 0 <= k < data.Length && !(lo <= k < lo + n + 1) ==> data[k] == old(data[k])
    {
      forall k | lo <= k < lo + n {
        data[k] := s1[k - lo];
      }
      data[lo + n] := 0;
    }

    // mp_strndup; all n bytes are copied, a zero byte among them or not.
    method Strndup(mp: Block, s1: seq<byte>, n: nat) returns (r: Ptr, ghost spare: Block)
      requires Valid() && mp in st.pools && n <= |s1| && n + 1 + HEADER < SIZE_MODULUS
      modifies this, st.obtained, set b | b in st.obtained :: b.data
      ensures Valid() && st == A.Alloc(old(st), mp, n + 1, spare)
      ensures Returned(mp, r, n + 1) && r.block.data[r.off..r.off + n + 1] == s1[..n] + [0]
      ensures OnlyChanged(old(st), r.block, r.off, r.off + n + 1) && LiveKept(old(st), st, r, n + 1)
    {
      hide Inv, Located, Stored, At, HeaderOk, A.Alloc, LiveKept, SizeProduct;
      BaseAt(st, mp);
      ProductExact(n + 1, 1);
      r, spare := Calloc(mp, n + 1, 1);
      CopyString(r.block.data, r.off, s1, n);
    }
  }
}
