// What a datagram, a callback and a run do to the connections, said of the table,
// the timers and the cleanup log themselves.
module LifecycleOutcomes {
  import opened Common
  import opened Lifecycle
  import Token

  // Removal takes out one place of the table and keeps the order of the others.
  lemma {:induction false} WithoutAt(table: seq<nat>, k: nat)
    requires NoRepeats(table) && k < |table|
    ensures Without(table, table[k]) == table[..k] + table[k + 1..]
  {
    if k == 0 {
      WithoutNone(table[1..], table[0]);
    } else {
      assert table[0] != table[k];
      WithoutAt(table[1..], k - 1);
      assert table[..k] == [table[0]] + table[1..][..k - 1] && table[k + 1..] == table[1..][k..];
    }
  }

  lemma {:induction false} WithoutNone(table: seq<nat>, c: nat)
    requires c !in table
    ensures Without(table, c) == table
  {
    if table != [] {
      assert table == [table[0]] + table[1..];
      WithoutNone(table[1..], c);
    }
  }

  // ---------------------------------------------------------------- one datagram

  // The connection taken out of the table and cleaned up.
  ghost predicate TakenOut(s: State, t: State, c: nat) {
    && (exists k :: 0 <= k < |s.table| && s.table[k] == c && t.table == s.table[..k] + s.table[k + 1..])
    && t.armed == s.armed - {c} && t.created == s.created && t.cleaned == s.cleaned + [c]
  }

  lemma RemoveTakesOut(s: State, c: nat)
    requires NoRepeats(s.table) && c in s.table
    ensures TakenOut(s, Remove(s, c), c)
  {
    var k :| 0 <= k < |s.table| && s.table[k] == c;
    WithoutAt(s.table, k);
  }

  // A datagram whose first 16 bytes of connection ID are the ID of a connection in
  // the table reaches that connection. The connection stays as it is, unless the
  // packet cannot be processed; then it is the one that goes.
  lemma KnownOutcome(s: State, d: Datagram, c: nat)
    requires Inv(s) && d.WellFormed() && d.headerOk && c in s.table && s.created[c] == d.dcidBuf[..16]
    ensures var o := Receive(s, d);
      && o.reply == Silence && o.admitted == None
      && match d.receipt
         case DoneReading => o.state == s && o.control == Stop
         case Received => o.state == s && o.control == (if d.gaveUp then Quit else Next)
         case RecvFailed => TakenOut(s, o.state, c) && o.control == Quit
  {
    assert Lookup(s, d.Key()) == Some(c);
    RemoveTakesOut(s, c);
  }

  // No connection in the table has the ID the datagram is addressed to.
  predicate Unknown(s: State, d: Datagram)
    requires d.WellFormed()
  {
    forall c :: c in s.table ==> CidOf(s, c) != d.dcidBuf[..16]
  }

  // A connection is created exactly for a datagram to an unknown ID, of a supported
  // version, with the token minted for its address and an ID of at most 20 bytes.
  lemma AdmittedExactlyWhen(s: State, d: Datagram)
    requires d.WellFormed()
    ensures Receive(s, d).admitted.Some?
       <==> (d.headerOk && Unknown(s, d) && d.versionOk && d.accepted
             && exists odcid :: |odcid| <= 20 && d.token == Token.Mint(d.peer, odcid))
  {
    Token.ValidatesExactlyMinted(d.token, d.peer, MAX_CID_LEN);
  }

  // The new connection is the last one in the table, found under its own ID, with
  // its timer pending, and nothing else changes; unless its first packet cannot be
  // processed: then it has come and gone.
  lemma AdmittedOutcome(s: State, d: Datagram)
    requires Inv(s) && d.WellFormed() && Receive(s, d).admitted.Some? && FreshId(s, d.newCid)
    ensures var o, c := Receive(s, d), |s.created|;
      && o.reply == Silence && o.state.created == s.created + [d.newCid]
      && if d.receipt.RecvFailed? then
           && o.state.table == s.table && o.state.armed == s.armed
           && o.state.cleaned == s.cleaned + [c] && o.control == Quit
         else
           && o.state.table == s.table + [c] && o.state.armed == s.armed + {c}
           && o.state.cleaned == s.cleaned && Lookup(o.state, d.newCid) == Some(c)
           && o.control == (if d.receipt.DoneReading? then Stop else if d.gaveUp then Quit else Next)
  {
    hide Inv, Without, LookupIn, FreshId;
    NewIsFound(s, d.newCid);
    NewGoesAgain(s, d.newCid);
  }

  lemma NewIsFound(s: State, cid: Cid)
    requires Inv(s) && FreshId(s, cid)
    ensures Lookup(Create(s, cid), cid) == Some(|s.created|)
  {
    CreateKeeps(s, cid);
    var t := Create(s, cid);
    assert t.table[|s.table|] == |s.created| && CidOf(t, |s.created|) == cid;
  }

  lemma NewGoesAgain(s: State, cid: Cid)
    requires Inv(s)
    ensures var t := Remove(Create(s, cid), |s.created|);
      t.table == s.table && t.armed == s.armed
  {
    var t := Create(s, cid);
    assert |s.created| !in s.table && |s.created| !in s.armed;
    hide Inv;
    WithoutAt(t.table, |s.table|);
    assert t.armed - {|s.created|} == s.armed;
  }

  // Any other datagram changes nothing and ends the callback. The answer is a
  // retry with a token for the sender and the ID it used, if it brought no token.
  lemma RefusedOutcome(s: State, d: Datagram)
    requires d.WellFormed() && (!d.headerOk || Unknown(s, d)) && Receive(s, d).admitted.None?
    ensures var o := Receive(s, d);
      && o.state == s && o.control == Quit
      && o.reply == if !d.headerOk then Silence
                    else if !d.versionOk then VersionNegotiation
                    else if d.token == [] then Retry(Token.Mint(d.peer, d.dcidBuf[..d.dcidLen]))
                    else Silence
  {
  }

  // --------------------------------------------------------------- one callback

  // The states the receive loop goes through: it goes on exactly as long as it is
  // told to and there is another datagram.
  ghost predicate Trace(ss: seq<State>, ds: seq<Datagram>, control: Control) {
    && 0 < |ss| <= |ds| + 1
    && (forall i :: 0 <= i < |ss| - 1 ==> ds[i].WellFormed() && ss[i + 1] == Receive(ss[i], ds[i]).state)
    && (forall i :: 0 <= i < |ss| - 2 ==> Receive(ss[i], ds[i]).control == Next)
    && (|ss| == 1 || Receive(ss[|ss| - 2], ds[|ss| - 2]).control == Next ==>
      |ss| == |ds| + 1 && control == Stop)
    && (|ss| > 1 && Receive(ss[|ss| - 2], ds[|ss| - 2]).control != Next ==>
      control == Receive(ss[|ss| - 2], ds[|ss| - 2]).control)
  }

  lemma {:induction false} DrainOutcome(s: State, ds: seq<Datagram>) returns (ss: seq<State>)
    requires forall i :: 0 <= i < |ds| ==> ds[i].WellFormed()
    ensures Trace(ss, ds, Drain(s, ds).control) && ss[0] == s && ss[|ss| - 1] == Drain(s, ds).state
    decreases |ds|
  {
    hide Receive;
    ss := [s];
    if ds != [] {
      var o := Receive(s, ds[0]);
      if o.control == Next {
        var rest := DrainOutcome(o.state, ds[1..]);
        ss := [s] + rest;
      } else {
        ss := [s, o.state];
      }
    }
  }

  // After a loop that did not quit, exactly the connections reported closed have
  // gone from the table it left, and those with a timeout have their timer set; a
  // loop that quits is all that happens.
  lemma EventOutcome(s: State, ds: seq<Datagram>, timed: set<nat>, closed: set<nat>)
    requires Inv(s) && (forall i :: 0 <= i < |ds| ==> ds[i].WellFormed()) && FreshIds(s, ds)
    ensures var o, t := Drain(s, ds), EventCb(s, ds, timed, closed);
      if o.control == Quit then t == o.state
      else
        && t.created == o.state.created
        && (forall c :: c in t.table <==> c in o.state.table && c !in closed)
        && (forall c :: c in t.armed <==> c in t.table && (c in o.state.armed || c in timed))
        && (forall c :: c in t.cleaned <==> c in o.state.cleaned || (c in o.state.table && c in closed))
  {
    hide Inv, Drain, Sweep, FreshIds;
    DrainKeeps(s, ds);
    var u := Drain(s, ds).state;
    ArmedAreInTable(u);
    SweepOutcome(u, u.table, timed, closed);
    var t := Sweep(u, u.table, timed, closed);
    if t.created == u.created {
      Partition(u);
      Partition(t);
    }
  }

  lemma Partition(s: State)
    requires Inv(s)
    ensures forall c :: c in s.table ==> 0 <= c < |s.created|
    ensures forall c :: c in s.cleaned <==> 0 <= c < |s.created| && c !in s.table
  {
  }

  // ------------------------------------------------------------------------ runs

  // The packet could not be processed by the connection of this ID, be it an old
  // one or the one created for it.
  predicate FailedOn(d: Datagram, cid: Cid) {
    d.WellFormed() && d.headerOk && d.receipt.RecvFailed? && (d.dcidBuf[..16] == cid || d.newCid == cid)
  }

  // What may end connection c, of this ID.
  ghost predicate Cause(e: Event, c: nat, cid: Cid) {
    match e
    case Readable(ds, _, closed) => c in closed || exists d :: d in ds && FailedOn(d, cid)
    case TimerFires(d, _, isClosed) => d == c && isClosed
    case SenderFlush(_, _) => false
    case ServerStops => true
  }

  lemma ReceiveCause(s: State, d: Datagram, c: nat)
    requires Inv(s) && d.WellFormed() && c !in s.cleaned
    ensures var t := Receive(s, d).state;
      && s.created <= t.created
      && (c in t.cleaned ==> c < |t.created| && FailedOn(d, t.created[c]))
  {
    hide Without;
  }

  lemma {:induction false} DrainCause(s: State, ds: seq<Datagram>, c: nat)
    requires Inv(s) && (forall i :: 0 <= i < |ds| ==> ds[i].WellFormed()) && FreshIds(s, ds)
    requires c !in s.cleaned
    ensures var t := Drain(s, ds).state;
      && s.created <= t.created
      && (c in t.cleaned ==> c < |t.created| && exists d :: d in ds && FailedOn(d, t.created[c]))
    decreases |ds|
  {
    hide Inv, Receive, FailedOn, FreshFor;
    if ds != [] {
      var o := Receive(s, ds[0]);
      ReceiveCause(s, ds[0], c);
      ReceiveKeeps(s, ds[0]);
      if o.control == Next {
        if c !in o.state.cleaned {
          DrainCause(o.state, ds[1..], c);
        } else {
          DrainKeeps(o.state, ds[1..]);
          CreatedGrows(o.state, ds[1..]);
        }
      }
    }
  }

  lemma {:induction false} CreatedGrows(s: State, ds: seq<Datagram>)
    requires forall i :: 0 <= i < |ds| ==> ds[i].WellFormed()
    ensures s.created <= Drain(s, ds).state.created
    decreases |ds|
  {
    if ds != [] {
      var o := Receive(s, ds[0]);
      if o.control == Next {
        CreatedGrows(o.state, ds[1..]);
      }
    }
  }

  // A connection is cleaned up in a step only if its packet failed, it was reported
  // closed, or the server stopped.
  lemma StepCause(s: State, e: Event, c: nat)
    requires Inv(s) && Enabled(s, e) && c !in s.cleaned
    ensures var t := Step(s, e);
      && s.created <= t.created && (c in t.cleaned ==> c < |t.created| && Cause(e, c, t.created[c]))
  {
    StepKeeps(s, e);
    Partition(Step(s, e));
    hide Inv, Drain, Sweep, Shutdown, FreshIds, FailedOn;
    match e
    case Readable(ds, timed, closed) =>
      DrainCause(s, ds, c);
      EventOutcome(s, ds, timed, closed);
    case ServerStops =>
      ArmedAreInTable(s);
      ShutdownOutcome(s, s.table);
    case _ =>
  }

  // Over every run: whoever has been cleaned up had a cause.
  lemma {:induction false} CleanedForCause(es: seq<Event>, c: nat) returns (k: nat)
    requires CanRun(es) && c in Run(es).cleaned
    ensures k < |es| && c < |Run(es).created| && Cause(es[k], c, Run(es).created[c])
    decreases |es|
  {
    var n := |es| - 1;
    var before := Run(es[..n]);
    RunKeeps(es[..n]);
    if c in before.cleaned {
      k := CleanedForCause(es[..n], c);
      StepCause(before, es[n], |before.created|);
    } else {
      k := n;
      StepCause(before, es[n], c);
    }
  }
}
