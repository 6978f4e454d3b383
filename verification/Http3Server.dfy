// main/http3/event_cb.c, timeout_cb.c and the connection table of
// main/http_stream/http_stream.c in their own form: connection objects with a
// timer each, and one global table, changed in place.
module Http3Server {
  import opened Common
  import opened Lifecycle
  import L = Lifecycle
  import Token

  // struct http_stream; `id` stands for its address.
  class HttpStream {
    const id: nat
    const cid: Cid
    var timerArmed: bool

    constructor (id: nat, cid: Cid)
      ensures this.id == id && this.cid == cid && timerArmed
    {
      this.id, this.cid, timerArmed := id, cid, true;
    }
  }

  class Server {
    var head: seq<HttpStream>
    var created: nat
    ghost var all: seq<HttpStream>
    ghost var st: State

    ghost predicate Valid()
      reads this, all
    {
      && |all| == created == |st.created|
      && (forall c :: 0 <= c < |all| ==> all[c].id == c && all[c].cid == st.created[c])
      && (forall c :: 0 <= c < |all| ==> (all[c].timerArmed <==> c in st.armed))
      && |head| == |st.table|
      && (forall k :: 0 <= k < |head| ==> st.table[k] < |all| && head[k] == all[st.table[k]])
    }

    constructor ()
      ensures Valid() && st == Start
    {
      head, created, all, st := [], 0, [], Start;
    }

    // get_connection
    method GetConnection(key: Cid) returns (hs: HttpStream?)
      requires Valid()
      ensures hs == null <==> L.Lookup(st, key) == None
      ensures hs != null ==> L.Lookup(st, key) == Some(hs.id) && hs.id < |all| && hs == all[hs.id]
    {
      hs := null;
      for i := 0 to |head|
        invariant L.LookupIn(st, st.table, key) == L.LookupIn(st, st.table[i..], key)
      {
        if head[i].cid == key {
          return head[i];
        }
      }
    }

    // create_conn, the new timer, and add_connection in the case of a new ID.
    method CreateConn(cid: Cid) returns (hs: HttpStream)
      requires Valid() && L.FreshId(st, cid)
      modifies this
      ensures Valid() && st == L.Create(old(st), cid)
      ensures fresh(hs) && all == old(all) + [hs] && hs.id == |old(st).created|
    {
      hs := new HttpStream(created, cid);
      head := head + [hs];
      created := created + 1;
      all := all + [hs];
      st := L.Create(st, cid);
    }

    // delete_connection
    method DeleteConnection(hs: HttpStream)
      requires Valid() && hs.id < |all| && hs == all[hs.id]
      modifies `head
      ensures var rest := Without(st.table, hs.id);
        |head| == |rest| && forall k :: 0 <= k < |head| ==> rest[k] < |all| && head[k] == all[rest[k]]
    {
      var items, rest := head, [];
      for i := 0 to |items|
        invariant |rest| == |Without(st.table[..i], hs.id)|
        invariant forall k :: 0 <= k < |rest| ==>
          Without(st.table[..i], hs.id)[k] < |all| && rest[k] == all[Without(st.table[..i], hs.id)[k]]
      {
        WithoutLast(st.table[..i + 1], hs.id);
        assert st.table[..i + 1][..i] == st.table[..i];
        if items[i] != hs {
          rest := rest + [items[i]];
        }
      }
      assert st.table[..|items|] == st.table;
      head := rest;
    }

    // delete_connection and http3_connection_cleanup: the timer is cancelled.
    method Remove(hs: HttpStream)
      requires Valid() && hs.id < |all| && hs == all[hs.id]
      modifies this, hs
      ensures Valid() && st == L.Remove(old(st), hs.id) && all == old(all)
    {
      DeleteConnection(hs);
      hs.timerArmed := false;
      st := L.Remove(st, hs.id);
    }

    // flush_egress, as far as the timer goes; quiche reports a timeout or none.
    method FlushEgress(hs: HttpStream, timed: bool)
      requires Valid() && hs.id < |all| && hs == all[hs.id]
      modifies hs, `st
      ensures Valid() && st == L.Flush(old(st), hs.id, timed)
    {
      if timed {
        hs.timerArmed := true;
      }
      st := L.Flush(st, hs.id, timed);
    }

    // timeout_cb, called by the event loop when the timer of hs fires.
    method TimeoutCb(hs: HttpStream, timed: bool, closed: bool)
      requires Valid() && hs.id < |all| && hs == all[hs.id]
      modifies this, hs
      ensures Valid() && st == L.TimeoutCb(old(st), hs.id, timed, closed)
    {
      hs.timerArmed := false;
      st := st.(armed := st.armed - {hs.id});
      FlushEgress(hs, timed);
      if closed {
        Remove(hs);
      }
    }

    // One turn of the receive loop of http3_event_cb.
    method Receive(d: Datagram) returns (control: Control, reply: Reply)
      requires Valid() && d.WellFormed() && L.FreshFor(st, d)
      modifies this, all
      ensures Valid() && (forall c :: 0 <= c < |all| ==> all[c] in old(all) || fresh(all[c]))
      ensures var o := L.Receive(old(st), d); st == o.state && control == o.control && reply == o.reply
    {
      hide L.Remove, L.Create, L.LookupIn, Token.Mint, Token.Validate;
      if !d.headerOk {
        return Quit, Silence;
      }
      var hs := GetConnection(d.Key());
      if hs == null {
        if !d.versionOk {
          return Quit, VersionNegotiation;
        }
        if |d.token| == 0 {
          var token := new byte[|Token.QUICHE| + MAX_ADDR_LEN + MAX_CID_LEN];
          var tokenLen := Token.MintToken(d.Dcid(), d.peer, token);
          return Quit, Retry(token[..tokenLen]);
        }
        var odcid := new byte[MAX_CID_LEN];
        var ok, odcidLen := Token.ValidateToken(d.token, d.peer, odcid);
        if !ok || !d.accepted {
          return Quit, Silence;
        }
        hs := CreateConn(d.newCid);
      }
      match d.receipt
      case DoneReading => return Stop, Silence;
      case RecvFailed =>
        Remove(hs);
        return Quit, Silence;
      case Received => return if d.gaveUp then Quit else Next, Silence;
    }

    // The receive loop of http3_event_cb.
    method ReceiveAll(ds: seq<Datagram>) returns (control: Control)
      requires Valid() && (forall i :: 0 <= i < |ds| ==> ds[i].WellFormed()) && L.FreshIds(st, ds)
      modifies this, all
      ensures Valid() && forall c :: 0 <= c < |all| ==> all[c] in old(all) || fresh(all[c])
      ensures var o := L.Drain(old(st), ds); st == o.state && (control == Quit <==> o.control == Quit)
    {
      hide L.Receive;
      control := Stop;
      var i := 0;
      while i < |ds|
        invariant i <= |ds| && Valid() && control == Stop
        invariant forall c :: 0 <= c < |all| ==> all[c] in old(all) || fresh(all[c])
        invariant L.Drain(st, ds[i..]) == L.Drain(old(st), ds) && L.FreshIds(st, ds[i..])
      {
        var reply;
        control, reply := Receive(ds[i]);
        assert ds[i..][1..] == ds[i + 1..];
        if control != Next {
          return;
        }
        control := Stop;
        i := i + 1;
      }
    }

    // The sweep of http3_event_cb over the whole table.
    method Sweep(timed: set<nat>, closed: set<nat>)
      requires Valid()
      modifies this, all
      ensures Valid() && st == L.Sweep(old(st), old(st).table, timed, closed)
    {
      ghost var table := st.table;
      var items, k := head, 0;
      while k < |items|
        invariant k <= |items| == |table| && Valid() && all == old(all)
        invariant forall j :: 0 <= j < |items| ==> table[j] < |all| && items[j] == all[table[j]]
        invariant L.Sweep(st, table[k..], timed, closed) == L.Sweep(old(st), table, timed, closed)
      {
        var hs := items[k];
        assert table[k..][1..] == table[k + 1..];
        FlushEgress(hs, hs.id in timed);
        if hs.id in closed {
          Remove(hs);
        }
        k := k + 1;
      }
    }

    // http3_event_cb
    method EventCb(ds: seq<Datagram>, timed: set<nat>, closed: set<nat>)
      requires Valid() && (forall i :: 0 <= i < |ds| ==> ds[i].WellFormed()) && L.FreshIds(st, ds)
      modifies this, all
      ensures Valid() && st == L.EventCb(old(st), ds, timed, closed)
    {
      var control := ReceiveAll(ds);
      if control != Quit {
        Sweep(timed, closed);
      }
    }

    // http3_cleanup
    method Cleanup()
      requires Valid()
      modifies this, all
      ensures Valid() && st == L.Shutdown(old(st), old(st).table)
    {
      ghost var table := st.table;
      var items, k := head, 0;
      while k < |items|
        invariant k <= |items| == |table| && Valid() && all == old(all)
        invariant forall j :: 0 <= j < |items| ==> table[j] < |all| && items[j] == all[table[j]]
        invariant L.Shutdown(st, table[k..]) == L.Shutdown(old(st), table)
      {
        assert table[k..][1..] == table[k + 1..];
        Remove(items[k]);
        k := k + 1;
      }
    }
  }

  lemma {:induction false} WithoutLast(table: seq<nat>, c: nat)
    requires table != []
    ensures var last := table[|table| - 1];
      Without(table, c) == Without(table[..|table| - 1], c) + (if last == c then [] else [last])
  {
    if |table| > 1 {
      WithoutLast(table[1..], c);
      assert table[1..][..|table| - 2] == table[..|table| - 1][1..];
    }
  }
}
