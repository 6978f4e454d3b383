// mp_free is an exact rollback to the moment the first chunk was linked.
module ArenaRollback {
  import opened Arena
  import opened ArenaRuns

  // mp_free ends up with the base frame and settles every chunk: the newest ones
  // join the free list up to the threshold, the rest are released, newest first.
  lemma FreeOutcome(s: State, p: Block)
    requires Inv(s) && p in s.pools
    ensures
      var t, fs := Free(s, p), s.pools[p];
      var chunks := |fs| - 1;
      var kept := |t.free| - |s.free|;
      && t.pools == s.pools[p := [fs[0]]]
      && kept == (if chunks <= THRESHOLD - s.nfree then chunks else THRESHOLD - s.nfree)
      && t.nfree - s.nfree == kept && |t.released| - |s.released| == chunks - kept
      && s.free <= t.free && s.released <= t.released
      && (forall i :: |s.free| <= i < |t.free| ==> t.free[i].block == Nth(fs, i - |s.free|).block)
      && (forall i :: |s.released| <= i < |t.released| ==> t.released[i] == Nth(fs, kept + i - |s.released|).block)
      && t.obtained == s.obtained
  {
    assert s.pools[p][..1] == [s.pools[p][0]];
  }

  // The ranges of the base block, and those of every other pool, survive mp_free.
  lemma FreeKeepsBaseLive(s: State, p: Block, h: Handle)
    requires Inv(s) && p in s.pools && Live(s, h) && (h.pool == p ==> h.i == 0)
    ensures var t := Free(s, p);
      Live(t, h) && BlockOf(t, h) == BlockOf(s, h) && RangeOf(t, h) == RangeOf(s, h)
  {
  }

  // mp_delete, clean or not, leaves the other pools alone and settles every block
  // of the pool: as with mp_free, the newest chunks join the free list while it has
  // room, none if the delete is clean; the other chunks, newest first, and last of
  // all the base block are released.
  lemma DeleteOutcome(s: State, p: Block, clean: bool)
    requires Inv(s) && p in s.pools
    ensures
      var t, fs := Delete(s, p, clean), s.pools[p];
      var chunks := |fs| - 1;
      var kept := |t.free| - |s.free|;
      && t.pools == s.pools - {p}
      && kept == (if clean then 0 else if chunks <= THRESHOLD - s.nfree then chunks else THRESHOLD - s.nfree)
      && t.nfree == (if clean then THRESHOLD else s.nfree + kept)
      && s.free <= t.free && s.released <= t.released && |t.released| - |s.released| == chunks - kept + 1
      && (forall i :: |s.free| <= i < |t.free| ==> t.free[i].block == Nth(fs, i - |s.free|).block)
      && (forall i :: |s.released| <= i < |t.released| ==> t.released[i] == Nth(fs, kept + i - |s.released|).block)
      && t.released[|t.released| - 1] == p && t.obtained == s.obtained
  {
    var t, fs := Delete(s, p, clean), s.pools[p];
    var freed := Free(if clean then s.(nfree := THRESHOLD) else s, p);
    assert t.pools == s.pools - {p};
    forall i | |s.released| <= i < |t.released|
      ensures t.released[i] == Nth(fs, |t.free| - |s.free| + i - |s.released|).block
    {
      if i == |t.released| - 1 {
        assert Nth(fs, |fs| - 1).block == p;
      } else {
        assert t.released[i] == freed.released[i];
      }
    }
  }

  // mp_delete takes the address of the caller's pointer, and clears it at the end.
  // If that pointer is stored in a live range, its block has been released by then,
  // by a clean delete, exactly if the range is the pool's own.
  lemma ClearsReleasedExactlyWhen(s: State, p: Block, h: Handle)
    requires Inv(s) && p in s.pools && Live(s, h)
    ensures BlockOf(s, h) in Delete(s, p, true).released <==> h.pool == p
  {
    var t, fs := Delete(s, p, true), s.pools[p];
    DeleteOutcome(s, p, true);
    hide Inv, Delete;
    var b, place := BlockOf(s, h), Held(h.pool, h.i);
    if h.pool == p {
      var i := |s.released| + (|fs| - 1 - h.i);
      assert t.released[i] == Nth(fs, i - |s.released|).block;
    } else if i: nat :| i < |t.released| && t.released[i] == b {
      if i < |s.released| {
        OnePlace(s, Released(i), place, b);
      } else {
        OnePlace(s, Held(p, |fs| - 1 - (i - |s.released|)), place, b);
      }
    }
  }

  lemma OnePlace(s: State, x: Place, y: Place, b: Block)
    requires Inv(s) && At(s, x, b) && At(s, y, b)
    ensures x == y
  {
  }

  // The operation may end pool p's current phase.
  predicate Resets(op: Op, p: Block) {
    (op.FreeOp? || op.DeleteOp?) && op.pool == p
  }

  ghost predicate Chunkless(s: State, p: Block) {
    p in s.pools && |s.pools[p]| == 1
  }

  lemma StepKeepsBase(s: State, op: Op, p: Block)
    requires Inv(s) && Enabled(s, op) && p in s.pools && !Resets(op, p)
    ensures var t := Step(s, op);
      && p in t.pools && |s.pools[p]| <= |t.pools[p]|
      && (|t.pools[p]| > 1 ==> t.pools[p][0] == s.pools[p][0])
  {
    assert At(s, Held(p, 0), p);
  }

  // During the run the pool is chunkless up to step k and never again.
  ghost predicate SplitsAt(s: State, ops: seq<Op>, p: Block, k: nat) {
    && k <= |ops|
    && forall i :: 0 <= i <= |ops| ==> CanRun(s, ops[..i]) && (Chunkless(Run(s, ops[..i]), p) <==> i <= k)
  }

  // Let the pool have no chunk at first and not be freed during a run. Then
  // mp_free after the run gives back the whole pool as it was at step k, the
  // moment before its first chunk was linked (or now, if none was).
  lemma Rollback(s: State, ops: seq<Op>, p: Block) returns (k: nat)
    requires Inv(s) && Chunkless(s, p) && CanRun(s, ops)
    requires forall i :: 0 <= i < |ops| ==> !Resets(ops[i], p)
    ensures SplitsAt(s, ops, p, k) && CanRun(s, ops[..k]) && Chunkless(Run(s, ops[..k]), p)
    ensures p in Run(s, ops).pools && |Run(s, ops).pools[p]| > 0
    ensures Free(Run(s, ops), p).pools[p] == Run(s, ops[..k]).pools[p]
  {
    k := PhaseStart(s, ops, p);
  }

  // The base frame stays as it was when the first chunk was linked.
  lemma {:induction false} PhaseStart(s: State, ops: seq<Op>, p: Block) returns (k: nat)
    requires Inv(s) && Chunkless(s, p) && CanRun(s, ops)
    requires forall i :: 0 <= i < |ops| ==> !Resets(ops[i], p)
    ensures SplitsAt(s, ops, p, k) && CanRun(s, ops[..k]) && Chunkless(Run(s, ops[..k]), p)
    ensures p in Run(s, ops).pools && |Run(s, ops).pools[p]| > 0
    ensures Run(s, ops[..k]).pools[p] == [Run(s, ops).pools[p][0]]
    decreases |ops|
  {
    assert ops[..|ops|] == ops;
    if ops == [] {
      k := 0;
    } else {
      var n := |ops| - 1;
      var before := ops[..n];
      k := PhaseStart(s, before, p);
      assert before[..k] == ops[..k];
      RunKeeps(s, before);
      StepKeepsBase(Run(s, before), ops[n], p);
      PhaseExtends(s, ops, p, k);
      if Chunkless(Run(s, ops), p) {
        k := |ops|;
      }
    }
  }

  lemma OnceChunkless(s: State, t: State, p: Block)
    requires p in s.pools && p in t.pools && 1 <= |s.pools[p]| <= |t.pools[p]|
    ensures Chunkless(t, p) ==> Chunkless(s, p)
  {
  }

  lemma PhaseExtends(s: State, ops: seq<Op>, p: Block, k: nat)
    requires ops != [] && CanRun(s, ops) && SplitsAt(s, ops[..|ops| - 1], p, k)
    requires p in Run(s, ops[..|ops| - 1]).pools && p in Run(s, ops).pools
    requires 1 <= |Run(s, ops[..|ops| - 1]).pools[p]| <= |Run(s, ops).pools[p]|
    ensures SplitsAt(s, ops, p, if Chunkless(Run(s, ops), p) then |ops| else k)
  {
    hide Run, CanRun, Chunkless;
    var before := ops[..|ops| - 1];
    assert before[..|before|] == before && ops[..|ops|] == ops;
    assert Chunkless(Run(s, ops[..|before|]), p) ==> k == |before|;
    OnceChunkless(Run(s, before), Run(s, ops), p);
    forall i | 0 <= i <= |before|
      ensures CanRun(s, ops[..i]) && (Chunkless(Run(s, ops[..i]), p) <==> i <= k)
    {
      assert before[..i] == ops[..i];
    }
  }
}
