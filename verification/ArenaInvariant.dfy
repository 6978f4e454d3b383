// Every pool operation keeps the ownership and layout invariant.
module ArenaInvariant {
  import opened Arena

  // One block moves from one place to another.
  lemma Moved(s: State, t: State, from: Place, to: Place, b: Block)
    requires Located(s) && At(s, from, b) && t.obtained == s.obtained
    requires forall c :: !At(s, to, c)
    requires forall x, c :: At(t, x, c) <==> (x == to && c == b) || (x != from && At(s, x, c))
    ensures Located(t)
  {
    forall c | c in t.obtained
      ensures exists x :: At(t, x, c)
    {
      var x :| At(s, x, c);
      assert At(t, if c == b then to else x, c);
    }
  }

  // One new block arrives.
  lemma Arrived(s: State, t: State, to: Place, b: Block)
    requires Located(s) && b !in s.obtained && t.obtained == s.obtained + {b}
    requires forall x, c :: At(t, x, c) <==> (x == to && c == b) || At(s, x, c)
    ensures Located(t)
  {
    forall c | c in t.obtained
      ensures exists x :: At(t, x, c)
    {
      if c != b {
        var x :| At(s, x, c);
        assert At(t, x, c);
      } else {
        assert At(t, to, c);
      }
    }
  }

  lemma NewKeeps(s: State, nbytes: nat, base: Block)
    requires Inv(s) && base !in s.obtained && base.size == HEADER + nbytes
    ensures Inv(New(s, nbytes, base))
  {
    var t := New(s, nbytes, base);
    assert base in s.pools ==> At(s, Held(base, 0), base);
    Arrived(s, t, Held(base, 0), base);
  }

  lemma RecycledNone(s: State, p: Block)
    requires p in s.pools
    ensures Recycled(s, p, 0) == s
  {
    assert Recycled(s, p, 0).pools[p] == s.pools[p] && s.free[..|s.free|] == s.free;
    assert Recycled(s, p, 0).pools == s.pools;
  }

  lemma RecycleOne(s: State, p: Block, k: nat)
    requires p in s.pools && k < |s.free|
    ensures Recycled(s, p, k + 1) == Recycled(Recycled(s, p, k), p, 1)
  {
    var r := Recycled(s, p, k);
    assert Nth(r.free, 0) == Nth(s.free, k);
    assert Recycled(s, p, k + 1).pools[p] == Recycled(r, p, 1).pools[p];
    assert Recycled(s, p, k + 1).free == Recycled(r, p, 1).free;
  }

  lemma RecycleFirst(s: State, p: Block, k: nat)
    requires p in s.pools && k < |s.free|
    ensures Recycled(s, p, k + 1) == Recycled(Recycled(s, p, 1), p, k)
  {
    var r := Recycled(s, p, 1);
    assert forall i :: 0 <= i < k ==> Nth(r.free, i) == Nth(s.free, i + 1);
    assert TakenFrames(s.free, k + 1) == TakenFrames(s.free, 1) + TakenFrames(r.free, k);
    assert Recycled(s, p, k + 1).pools[p] == Recycled(r, p, k).pools[p];
    assert Recycled(s, p, k + 1).free == Recycled(r, p, k).free;
  }

  // The chunk taken last is the current one, and it is empty.
  lemma RecycledTop(s: State, p: Block, k: nat)
    requires p in s.pools && k <= |s.free|
    ensures var t := Recycled(s, p, k);
      && p in t.pools && |t.pools[p]| == |s.pools[p]| + k && |t.free| == |s.free| - k
      && (k > 0 ==> Top(t.pools[p]) == Opened(Nth(s.free, k - 1)))
  {
  }

  lemma LinkedTop(s: State, p: Block, nbytes: nat, spare: Block)
    requires p in s.pools
    ensures var t := Linked(s, p, nbytes, spare);
      p in t.pools && |t.pools[p]| > 0 && Fits(t, p, nbytes)
  {
  }

  lemma RecycleOneKeeps(s: State, p: Block)
    requires Inv(s) && p in s.pools && |s.free| > 0
    ensures Inv(Recycled(s, p, 1))
  {
    var t := Recycled(s, p, 1);
    var n := |s.pools[p]|;
    assert t.pools[p] == s.pools[p] + [Opened(Nth(s.free, 0))];
    Moved(s, t, OnFreeList(|s.free| - 1), Held(p, n), Nth(s.free, 0).block);
  }

  lemma {:induction false} RecycledKeeps(s: State, p: Block, k: nat)
    requires Inv(s) && p in s.pools && k <= |s.free|
    ensures Inv(Recycled(s, p, k))
  {
    if k == 0 {
      RecycledNone(s, p);
    } else {
      RecycledKeeps(s, p, k - 1);
      RecycleOne(s, p, k - 1);
      RecycleOneKeeps(Recycled(s, p, k - 1), p);
    }
  }

  lemma LinkedKeeps(s: State, p: Block, nbytes: nat, spare: Block)
    requires Inv(s) && p in s.pools && spare !in s.obtained && spare.size == HEADER + nbytes
    ensures Inv(Linked(s, p, nbytes, spare))
  {
    Arrived(s, Linked(s, p, nbytes, spare), Held(p, |s.pools[p]|), spare);
  }

  lemma BumpedKeeps(s: State, p: Block, nbytes: nat)
    requires Inv(s) && p in s.pools && 0 < nbytes <= Top(s.pools[p]).Left()
    ensures Inv(Bumped(s, p, nbytes))
  {
    var t := Bumped(s, p, nbytes);
    assert forall x, c :: At(t, x, c) <==> At(s, x, c);
    var rs := Top(t.pools[p]).ranges;
    assert rs[..|rs| - 1] == Top(s.pools[p]).ranges;
    assert forall c :: c in t.obtained ==> exists x :: At(s, x, c) && At(t, x, c);
  }

  lemma AllocKeeps(s: State, p: Block, nbytes: nat, spare: Block)
    requires Inv(s) && p in s.pools && nbytes > 0
    requires NeedsBlock(s, p, nbytes) ==> spare !in s.obtained && spare.size == HEADER + nbytes
    ensures Inv(Alloc(s, p, nbytes, spare))
  {
    var k := Misfits(s.free, nbytes);
    if Fits(s, p, nbytes) {
      BumpedKeeps(s, p, nbytes);
    } else if k < |s.free| {
      RecycledKeeps(s, p, k + 1);
      BumpedKeeps(Recycled(s, p, k + 1), p, nbytes);
    } else {
      RecycledKeeps(s, p, k);
      LinkedKeeps(Recycled(s, p, k), p, nbytes, spare);
      BumpedKeeps(Linked(Recycled(s, p, k), p, nbytes, spare), p, nbytes);
    }
  }

  lemma UnwoundNone(s: State, p: Block)
    requires p in s.pools && |s.pools[p]| > 0
    ensures Unwound(s, p, 0) == s
  {
    var u := Unwound(s, p, 0);
    assert u.pools[p] == s.pools[p] && u.pools == s.pools && u.free == s.free && u.released == s.released;
  }

  lemma UnwindOne(s: State, p: Block, j: nat)
    requires p in s.pools && j + 1 < |s.pools[p]|
    ensures Unwound(s, p, j + 1) == Unwound(Unwound(s, p, j), p, 1)
  {
    var u := Unwound(s, p, j);
    assert Nth(u.pools[p], 0) == Nth(s.pools[p], j);
    assert Unwound(s, p, j + 1).pools[p] == Unwound(u, p, 1).pools[p];
    assert Unwound(s, p, j + 1).free == Unwound(u, p, 1).free;
    assert Unwound(s, p, j + 1).released == Unwound(u, p, 1).released;
  }

  lemma UnwindOneKeeps(s: State, p: Block)
    requires Inv(s) && p in s.pools && |s.pools[p]| > 1
    ensures Inv(Unwound(s, p, 1))
  {
    var fs, t := s.pools[p], Unwound(s, p, 1);
    if s.nfree < THRESHOLD {
      assert t.free == s.free + [Chunk(Top(fs).block, Top(fs).limit)] && t.released == s.released;
      Moved(s, t, Held(p, |fs| - 1), OnFreeList(|s.free|), Top(fs).block);
    } else {
      assert t.free == s.free && t.released == s.released + [Top(fs).block];
      Moved(s, t, Held(p, |fs| - 1), Released(|s.released|), Top(fs).block);
    }
  }

  lemma {:induction false} UnwoundKeeps(s: State, p: Block, j: nat)
    requires Inv(s) && p in s.pools && j < |s.pools[p]|
    ensures Inv(Unwound(s, p, j))
  {
    if j == 0 {
      UnwoundNone(s, p);
    } else {
      UnwoundKeeps(s, p, j - 1);
      UnwindOne(s, p, j - 1);
      UnwindOneKeeps(Unwound(s, p, j - 1), p);
    }
  }

  lemma FreeKeeps(s: State, p: Block)
    requires Inv(s) && p in s.pools
    ensures Inv(Free(s, p))
  {
    UnwoundKeeps(s, p, |s.pools[p]| - 1);
  }

  lemma DeleteKeeps(s: State, p: Block, clean: bool)
    requires Inv(s) && p in s.pools
    ensures Inv(Delete(s, p, clean))
  {
    var s' := if clean then s.(nfree := THRESHOLD) else s;
    assert forall x, c :: At(s', x, c) <==> At(s, x, c);
    assert forall c :: c in s'.obtained ==> exists x :: At(s, x, c) && At(s', x, c);
    FreeKeeps(s', p);
    var f, t := Free(s', p), Delete(s, p, clean);
    assert |f.pools[p]| == 1;
    Moved(f, t, Held(p, 0), Released(|f.released|), p);
  }
}
