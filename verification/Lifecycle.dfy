// The life of the HTTP/3 connections: admitted by a datagram, kept in the
// connection table under their own ID, watched by a timeout timer, and cleaned
// up once. Connections are numbered in the order they are created.
module Lifecycle {
  import opened Common
  import Token

  const CID_LEN: nat := 16
  const MAX_CID_LEN: nat := 20

  // sizeof(struct sockaddr_storage)
  const MAX_ADDR_LEN: nat := 128

  type Cid = seq<byte>

  // table: the connections in the table, in insertion order.
  // armed: those whose timeout timer is pending.
  // created: the ID each connection was given.
  // cleaned: the connections cleaned up, in order.
  datatype State = State(table: seq<nat>, armed: set<nat>, created: seq<Cid>, cleaned: seq<nat>)

  const Start := State([], {}, [], [])

  // What happens to a datagram once its connection is known.
  datatype Receipt = DoneReading | RecvFailed | Received

  // A datagram, with the answers of the outside world. `dcidBuf` is the buffer
  // that quiche_header_info fills with `dcidLen` bytes of connection ID.
  datatype Datagram = Datagram(
    peer: seq<byte>,
    headerOk: bool,
    dcidBuf: seq<byte>,
    dcidLen: nat,
    versionOk: bool,
    token: seq<byte>,
    newCid: Cid,
    accepted: bool,
    receipt: Receipt,
    gaveUp: bool)
  {
    predicate WellFormed() {
      |dcidBuf| == MAX_CID_LEN && dcidLen <= MAX_CID_LEN && |newCid| == CID_LEN && |peer| <= MAX_ADDR_LEN
    }

    function Dcid(): seq<byte>
      requires WellFormed()
    {
      dcidBuf[..dcidLen]
    }

    // get_connection compares CID_LEN bytes of the buffer, whatever dcidLen is.
    function Key(): Cid
      requires WellFormed()
    {
      dcidBuf[..CID_LEN]
    }
  }

  datatype Reply = Silence | VersionNegotiation | Retry(token: seq<byte>)

  // Next: look for another datagram; Stop: leave the receive loop; Quit: leave
  // the callback at once, without the sweep.
  datatype Control = Next | Stop | Quit

  datatype Outcome = Outcome(state: State, control: Control, reply: Reply, admitted: Option<seq<byte>>)

  function CidOf(s: State, c: nat): Cid { if c < |s.created| then s.created[c] else [] }

  // get_connection
  function Lookup(s: State, key: Cid): (c: Option<nat>)
    ensures c.Some? ==> c.value in s.table && CidOf(s, c.value) == key
    ensures c.None? ==> forall d :: d in s.table ==> CidOf(s, d) != key
  {
    LookupIn(s, s.table, key)
  }

  function LookupIn(s: State, table: seq<nat>, key: Cid): (c: Option<nat>)
    ensures c.Some? ==> c.value in table && CidOf(s, c.value) == key
    ensures c.None? ==> forall d :: d in table ==> CidOf(s, d) != key
  {
    if table == [] then None
    else if CidOf(s, table[0]) == key then Some(table[0])
    else LookupIn(s, table[1..], key)
  }

  // create_conn, evtimer_add and add_connection, for an ID not in the table.
  function Create(s: State, cid: Cid): State {
    var c := |s.created|;
    s.(table := s.table + [c], armed := s.armed + {c}, created := s.created + [cid])
  }

  function Without(table: seq<nat>, c: nat): seq<nat> {
    if table == [] then []
    else (if table[0] == c then [] else [table[0]]) + Without(table[1..], c)
  }

  // delete_connection, then http3_connection_cleanup.
  function Remove(s: State, c: nat): State {
    State(Without(s.table, c), s.armed - {c}, s.created, s.cleaned + [c])
  }

  // The body of the receive loop of http3_event_cb.
  function Receive(s: State, d: Datagram): Outcome
    requires d.WellFormed()
  {
    if !d.headerOk then Outcome(s, Quit, Silence, None)
    else
      match Lookup(s, d.Key())
      case Some(c) => Process(s, c, d, None)
      case None =>
        if !d.versionOk then Outcome(s, Quit, VersionNegotiation, None)
        else if d.token == [] then Outcome(s, Quit, Retry(Token.Mint(d.peer, d.Dcid())), None)
        else
          match Token.Validate(d.token, d.peer, MAX_CID_LEN)
          case None => Outcome(s, Quit, Silence, None)
          case Some(odcid) =>
            if !d.accepted then Outcome(s, Quit, Silence, None)
            else Process(Create(s, d.newCid), |s.created|, d, Some(odcid))
  }

  // The datagram reaches connection c.
  function Process(s: State, c: nat, d: Datagram, admitted: Option<seq<byte>>): Outcome {
    match d.receipt
    case DoneReading => Outcome(s, Stop, Silence, admitted)
    case RecvFailed => Outcome(Remove(s, c), Quit, Silence, admitted)
    case Received => Outcome(s, if d.gaveUp then Quit else Next, Silence, admitted)
  }

  // The receive loop: datagrams until one ends it, or until there are no more.
  function Drain(s: State, ds: seq<Datagram>): Outcome
    requires forall i :: 0 <= i < |ds| ==> ds[i].WellFormed()
    decreases |ds|
  {
    if ds == [] then Outcome(s, Stop, Silence, None)
    else
      var o := Receive(s, ds[0]);
      if o.control == Next then Drain(o.state, ds[1..]) else o
  }

  // flush_egress sets the timer again if the transport asks for a timeout.
  function Flush(s: State, c: nat, timed: bool): State {
    if timed then s.(armed := s.armed + {c}) else s
  }

  // One turn of the sweep, and timeout_cb after its timer has fired.
  function FlushAndReap(s: State, c: nat, timed: bool, closed: bool): State {
    var t := Flush(s, c, timed);
    if closed then Remove(t, c) else t
  }

  // The sweep over the connections still to be visited: `timed` and `closed` are
  // those for which quiche reports a timeout, and that they are closed.
  function Sweep(s: State, items: seq<nat>, timed: set<nat>, closed: set<nat>): State
    decreases |items|
  {
    if items == [] then s
    else Sweep(FlushAndReap(s, items[0], items[0] in timed, items[0] in closed), items[1..], timed, closed)
  }

  // http3_event_cb
  function EventCb(s: State, ds: seq<Datagram>, timed: set<nat>, closed: set<nat>): State
    requires forall i :: 0 <= i < |ds| ==> ds[i].WellFormed()
  {
    var o := Drain(s, ds);
    if o.control == Quit then o.state else Sweep(o.state, o.state.table, timed, closed)
  }

  // timeout_cb; the timer that fired is no longer pending.
  function TimeoutCb(s: State, c: nat, timed: bool, closed: bool): State {
    FlushAndReap(s.(armed := s.armed - {c}), c, timed, closed)
  }

  // http3_cleanup
  function Shutdown(s: State, items: seq<nat>): State
    decreases |items|
  {
    if items == [] then s else Shutdown(Remove(s, items[0]), items[1..])
  }

  // --------------------------------------------------------------------- invariant

  predicate NoRepeats(xs: seq<nat>) {
    forall i, j :: 0 <= i < j < |xs| ==> xs[i] != xs[j]
  }

  predicate Inv(s: State) {
    && NoRepeats(s.table) && NoRepeats(s.cleaned)
    && (forall c :: c in s.table ==> c < |s.created| && c !in s.cleaned)
    && (forall c :: c in s.cleaned ==> c < |s.created|)
    && (forall c :: 0 <= c < |s.created| ==> c in s.table || c in s.cleaned)
    && (forall c :: c in s.armed ==> c in s.table)
    && (forall c, d :: c in s.table && d in s.table && CidOf(s, c) == CidOf(s, d) ==> c == d)
  }

  // The random ID of a connection that would be created now is not in the table.
  predicate FreshId(s: State, cid: Cid) {
    forall c :: c in s.table ==> CidOf(s, c) != cid
  }

  lemma {:induction false} WithoutIs(table: seq<nat>, c: nat)
    requires NoRepeats(table)
    ensures NoRepeats(Without(table, c)) && forall d :: d in Without(table, c) <==> d in table && d != c
  {
    if table != [] {
      WithoutIs(table[1..], c);
      assert table == [table[0]] + table[1..];
      assert table[0] !in table[1..];
      var rest := Without(table[1..], c);
      assert table[0] != c ==> Without(table, c)[1..] == rest;
    }
  }

  // Removing a connection of the table.
  lemma RemoveKeeps(s: State, c: nat)
    requires Inv(s) && c in s.table
    ensures var t := Remove(s, c);
      && Inv(t)
      && (forall d :: d in t.table <==> d in s.table && d != c)
      && (forall d :: d in t.armed <==> d in s.armed && d != c)
  {
    WithoutIs(s.table, c);
    hide Without;
    var t := Remove(s, c);
    assert forall d :: CidOf(t, d) == CidOf(s, d);
    assert forall d :: d in t.cleaned <==> d in s.cleaned || d == c;
  }

  lemma CreateKeeps(s: State, cid: Cid)
    requires Inv(s) && FreshId(s, cid)
    ensures Inv(Create(s, cid))
  {
    var t, c := Create(s, cid), |s.created|;
    assert forall d :: d in t.table <==> d in s.table || d == c;
    assert forall d :: d in s.table ==> CidOf(t, d) == CidOf(s, d);
    assert CidOf(t, c) == cid;
  }

  // Timers may be set and unset at will, but only for connections in the table.
  lemma RearmKeeps(s: State, armed: set<nat>)
    requires Inv(s) && forall c :: c in armed ==> c in s.armed || c in s.table
    ensures Inv(s.(armed := armed))
  {
  }

  lemma FlushAndReapKeeps(s: State, c: nat, timed: bool, closed: bool)
    requires Inv(s) && c in s.table
    ensures var t := FlushAndReap(s, c, timed, closed);
      && Inv(t)
      && (forall d :: d in t.table <==> d in s.table && !(d == c && closed))
      && (forall d :: d in t.armed <==> if d == c then !closed && (timed || c in s.armed) else d in s.armed)
  {
    hide Inv;
    RearmKeeps(s, s.armed + {c});
    if closed {
      RemoveKeeps(Flush(s, c, timed), c);
    }
  }

  // If the datagram creates a connection, its ID is not in the table.
  predicate FreshFor(s: State, d: Datagram)
    requires d.WellFormed()
  {
    Receive(s, d).admitted.Some? ==> FreshId(s, d.newCid)
  }

  lemma ReceiveKeeps(s: State, d: Datagram)
    requires Inv(s) && d.WellFormed() && FreshFor(s, d)
    ensures Inv(Receive(s, d).state) && s.cleaned <= Receive(s, d).state.cleaned
  {
    hide Inv, FreshId;
    match Lookup(s, d.Key())
    case Some(c) => RemoveKeeps(s, c);
    case None =>
      if Receive(s, d).admitted.Some? {
        CreateKeeps(s, d.newCid);
        RemoveKeeps(Create(s, d.newCid), |s.created|);
      }
  }

  // Every connection the receive loop creates gets an ID not in the table.
  predicate FreshIds(s: State, ds: seq<Datagram>)
    requires forall i :: 0 <= i < |ds| ==> ds[i].WellFormed()
    decreases |ds|
  {
    ds != [] ==>
      && FreshFor(s, ds[0])
      && (Receive(s, ds[0]).control == Next ==> FreshIds(Receive(s, ds[0]).state, ds[1..]))
  }

  lemma {:induction false} DrainKeeps(s: State, ds: seq<Datagram>)
    requires Inv(s) && forall i :: 0 <= i < |ds| ==> ds[i].WellFormed()
    requires FreshIds(s, ds)
    ensures Inv(Drain(s, ds).state) && s.cleaned <= Drain(s, ds).state.cleaned
    decreases |ds|
  {
    if ds != [] {
      ReceiveKeeps(s, ds[0]);
      if Receive(s, ds[0]).control == Next {
        DrainKeeps(Receive(s, ds[0]).state, ds[1..]);
      }
    }
  }

  // After the sweep over the connections `items` of the table: those reported
  // closed are gone, all others are there; a timer is pending for those of them
  // that had one or were reported with a timeout.
  lemma {:induction false} SweepOutcome(s: State, items: seq<nat>, timed: set<nat>, closed: set<nat>)
    requires Inv(s) && NoRepeats(items) && forall c :: c in items ==> c in s.table
    ensures var t := Sweep(s, items, timed, closed);
      && Inv(t) && t.created == s.created && s.cleaned <= t.cleaned
      && (forall c :: c in t.table <==> c in s.table && !(c in items && c in closed))
      && (forall c :: c in t.armed <==> c in t.table && (c in s.armed || (c in items && c in timed)))
    decreases |items|
  {
    hide Inv;
    if items == [] {
      ArmedAreInTable(s);
    } else {
      var c := items[0];
      FlushAndReapKeeps(s, c, c in timed, c in closed);
      var u := FlushAndReap(s, c, c in timed, c in closed);
      assert items == [c] + items[1..];
      assert c !in items[1..];
      ArmedAreInTable(s);
      SweepOutcome(u, items[1..], timed, closed);
    }
  }

  lemma ArmedAreInTable(s: State)
    requires Inv(s)
    ensures NoRepeats(s.table) && forall c :: c in s.armed ==> c in s.table
  {
  }

  lemma {:induction false} ShutdownOutcome(s: State, items: seq<nat>)
    requires Inv(s) && NoRepeats(items) && forall c :: c in items ==> c in s.table
    ensures var t := Shutdown(s, items);
      && Inv(t) && t.created == s.created && s.cleaned <= t.cleaned
      && (forall c :: c in t.table <==> c in s.table && c !in items)
    decreases |items|
  {
    hide Inv;
    if items != [] {
      RemoveKeeps(s, items[0]);
      assert items == [items[0]] + items[1..];
      assert items[0] !in items[1..];
      ShutdownOutcome(Remove(s, items[0]), items[1..]);
    }
  }

  // ------------------------------------------------------------------------- runs

  // What the event loop can do to the connections. SenderFlush is the flush at
  // the end of a response callback.
  datatype Event =
    | Readable(ds: seq<Datagram>, timed: set<nat>, closed: set<nat>)
    | TimerFires(c: nat, timedAgain: bool, isClosed: bool)
    | SenderFlush(c: nat, timedAgain: bool)
    | ServerStops

  predicate Enabled(s: State, e: Event) {
    match e
    case Readable(ds, _, _) => (forall i :: 0 <= i < |ds| ==> ds[i].WellFormed()) && FreshIds(s, ds)
    case TimerFires(c, _, _) => c in s.armed
    case SenderFlush(c, _) => c in s.table
    case ServerStops => true
  }

  function Step(s: State, e: Event): State
    requires Enabled(s, e)
  {
    match e
    case Readable(ds, timed, closed) => EventCb(s, ds, timed, closed)
    case TimerFires(c, timed, closed) => TimeoutCb(s, c, timed, closed)
    case SenderFlush(c, timed) => Flush(s, c, timed)
    case ServerStops => Shutdown(s, s.table)
  }

  lemma StepKeeps(s: State, e: Event)
    requires Inv(s) && Enabled(s, e)
    ensures Inv(Step(s, e)) && s.cleaned <= Step(s, e).cleaned
  {
    hide Inv, Sweep;
    ArmedAreInTable(s);
    match e
    case Readable(ds, timed, closed) =>
      DrainKeeps(s, ds);
      var t := Drain(s, ds).state;
      ArmedAreInTable(t);
      SweepOutcome(t, t.table, timed, closed);
    case TimerFires(c, timed, closed) =>
      RearmKeeps(s, s.armed - {c});
      FlushAndReapKeeps(s.(armed := s.armed - {c}), c, timed, closed);
    case SenderFlush(c, timed) =>
      RearmKeeps(s, s.armed + {c});
    case ServerStops =>
      ShutdownOutcome(s, s.table);
  }

  predicate CanRun(es: seq<Event>)
    decreases |es|, 0
  {
    es == [] || (CanRun(es[..|es| - 1]) && Enabled(Run(es[..|es| - 1]), es[|es| - 1]))
  }

  function Run(es: seq<Event>): State
    requires CanRun(es)
    decreases |es|, 1
  {
    if es == [] then Start else Step(Run(es[..|es| - 1]), es[|es| - 1])
  }

  lemma {:induction false} RunKeeps(es: seq<Event>)
    requires CanRun(es)
    ensures Inv(Run(es))
    decreases |es|
  {
    if es != [] {
      RunKeeps(es[..|es| - 1]);
      StepKeeps(Run(es[..|es| - 1]), es[|es| - 1]);
    }
  }

  predicate Filed(s: State, c: nat) { Lookup(s, CidOf(s, c)) == Some(c) }

  // Over every run, each connection created is either found in the table under
  // its own ID, or it has been cleaned up, exactly once; and a connection that
  // has been cleaned up is not found under its ID and has no timer pending.
  lemma EveryConnectionFiledOrCleanedOnce(es: seq<Event>, c: nat)
    requires CanRun(es) && c < |Run(es).created|
    ensures var s := Run(es);
      && (Filed(s, c) <==> c !in s.cleaned)
      && (c in s.cleaned ==> c !in s.table && c !in s.armed)
      && NoRepeats(s.cleaned)
  {
    RunKeeps(es);
  }

  // A connection that has been cleaned up never comes back.
  lemma NeverComesBack(s: State, e: Event, c: nat)
    requires Inv(s) && Enabled(s, e) && c in s.cleaned
    ensures var t := Step(s, e); c in t.cleaned && c !in t.table && c !in t.armed
  {
    StepKeeps(s, e);
    assert s.cleaned == Step(s, e).cleaned[..|s.cleaned|];
  }

  // When the server has stopped, every connection ever created has been cleaned
  // up once, and no timer is pending.
  lemma ShutdownLeavesNothing(es: seq<Event>)
    requires CanRun(es)
    ensures var s := Shutdown(Run(es), Run(es).table);
      && (forall c :: c !in s.table) && s.armed == {} && NoRepeats(s.cleaned)
      && forall c :: c in s.cleaned <==> 0 <= c < |s.created|
  {
    RunKeeps(es);
    ShutdownOutcome(Run(es), Run(es).table);
  }

  // A connection whose packet cannot be processed, or that is found closed when
  // its timer fires, is cleaned up then and there; a timer that fires for an open
  // connection is set again exactly if quiche reports a timeout.
  lemma FailureCleansUp(s: State, d: Datagram, c: nat)
    requires Inv(s) && d.WellFormed() && d.headerOk && Lookup(s, d.Key()) == Some(c) && d.receipt.RecvFailed?
    ensures var t := Receive(s, d).state;
      && (forall e :: e in t.table <==> e in s.table && e != c)
      && (forall e :: e in t.armed <==> e in s.armed && e != c)
      && t.cleaned == s.cleaned + [c]
  {
    RemoveKeeps(s, c);
  }

  lemma TimeoutOutcome(s: State, c: nat, timed: bool, closed: bool)
    requires Inv(s) && c in s.armed
    ensures var t := TimeoutCb(s, c, timed, closed);
      && (forall e :: e in t.table <==> e in s.table && !(closed && e == c))
      && (forall e :: e in t.armed <==> if e == c then timed && !closed else e in s.armed)
      && t.cleaned == (if closed then s.cleaned + [c] else s.cleaned)
  {
    RearmKeeps(s, s.armed - {c});
    FlushAndReapKeeps(s.(armed := s.armed - {c}), c, timed, closed);
  }

  // --------------------------------------------------------------------- admission

  // The version negotiation and retry answers leave every connection alone, and
  // go only to datagrams for no known connection.
  lemma AnswersAreStateless(s: State, d: Datagram)
    requires d.WellFormed() && Receive(s, d).reply != Silence
    ensures Receive(s, d).state == s && Receive(s, d).admitted == None && Receive(s, d).control == Quit
    ensures forall c :: c in s.table ==> CidOf(s, c) != d.Key()
    ensures Receive(s, d).reply.Retry? <==> d.versionOk
  {
  }

  // A client at `first.peer` sends an Initial without a token, takes the token of
  // the answer and repeats itself, with a new ID, from the same address. The first
  // datagram changes nothing. Whatever happens to the other connections until the
  // second one arrives, it creates the connection, with the ID of the first
  // datagram as its original ID.
  lemma RetryAdmits(s: State, first: Datagram, t: State, second: Datagram)
    requires first.WellFormed() && second.WellFormed()
    requires first.headerOk && first.versionOk && first.token == [] && Lookup(s, first.Key()) == None
    requires Receive(s, first).reply == Retry(second.token)
    requires second.headerOk && second.versionOk && second.accepted && second.peer == first.peer
    requires Lookup(t, second.Key()) == None
    ensures Receive(s, first).state == s
    ensures Receive(t, second).admitted == Some(first.Dcid())
    ensures Receive(t, second).state.created == t.created + [second.newCid]
  {
    Token.MintedValidates(first.peer, first.Dcid(), MAX_CID_LEN);
  }

  // Nothing else is ever admitted: a datagram that creates a connection carries
  // the token minted for its own address and the original ID, and the table had
  // no connection under the ID it was sent to.
  lemma AdmittedOnlyWithToken(s: State, d: Datagram)
    requires d.WellFormed()
    ensures Receive(s, d).admitted.Some? ==>
      && d.token == Token.Mint(d.peer, Receive(s, d).admitted.value)
      && |Receive(s, d).admitted.value| <= MAX_CID_LEN
      && d.versionOk && Lookup(s, d.Key()) == None
    ensures |Receive(s, d).state.created| == |s.created| + (if Receive(s, d).admitted.Some? then 1 else 0)
  {
  }
}
