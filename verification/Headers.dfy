// The header tables of main/http_stream/headers.c, kept in insertion order, and
// the header list of a response (main/http3/http3.c).
module Headers {
  import opened Common

  datatype Header = Header(name: Str, value: Str)

  const STATUS: Str := [58, 115, 116, 97, 116, 117, 115]
  const SERVER: Str := [115, 101, 114, 118, 101, 114]
  const CONTENT_LENGTH: Str := [99, 111, 110, 116, 101, 110, 116, 45, 108, 101, 110, 103, 116, 104]
  const QUICHE: Str := [113, 117, 105, 99, 104, 101]
  const OK: Str := [50, 48, 48]
  const FIVE: Str := [53]

  function Names(hs: seq<Header>): (names: seq<Str>)
    ensures |names| == |hs| && forall i :: 0 <= i < |hs| ==> names[i] == hs[i].name
  {
    seq(|hs|, i requires 0 <= i < |hs| => hs[i].name)
  }

  predicate Distinct(hs: seq<Header>) {
    forall i, j :: 0 <= i < j < |hs| ==> hs[i].name != hs[j].name
  }

  // HASH_FIND_STR
  function Find(hs: seq<Header>, name: Str): (k: Option<nat>)
    ensures k.Some? ==> k.value < |hs| && hs[k.value].name == name
    ensures k.None? ==> name !in Names(hs)
  {
    if hs == [] then None
    else if hs[|hs| - 1].name == name then Some(|hs| - 1)
    else
      assert Names(hs) == Names(hs[..|hs| - 1]) + [hs[|hs| - 1].name];
      Find(hs[..|hs| - 1], name)
  }

  // insert_header
  function Upsert(hs: seq<Header>, name: Str, value: Str): seq<Header> {
    match Find(hs, name)
    case Some(k) => hs[k := Header(name, value)]
    case None => hs + [Header(name, value)]
  }

  // The name keeps its first place; its value is the new one; no other entry
  // changes.
  lemma UpsertOutcome(hs: seq<Header>, name: Str, value: Str)
    requires Distinct(hs)
    ensures var t := Upsert(hs, name, value);
      && Distinct(t)
      && Names(t) == (if name in Names(hs) then Names(hs) else Names(hs) + [name])
      && (exists k :: 0 <= k < |t| && t[k] == Header(name, value))
      && (forall k :: 0 <= k < |hs| && hs[k].name != name ==> t[k] == hs[k])
  {
    var t := Upsert(hs, name, value);
    match Find(hs, name)
    case Some(k) =>
      assert t[k] == Header(name, value) && hs[k].name in Names(hs);
    case None =>
      assert t[|hs|] == Header(name, value);
      assert forall i :: 0 <= i < |hs| ==> hs[i].name in Names(hs);
  }

  class HeaderTable {
    var entries: seq<Header>

    constructor ()
      ensures entries == []
    {
      entries := [];
    }

    method Insert(name: Str, value: Str)
      modifies this
      ensures entries == Upsert(old(entries), name, value)
    {
      var k := Find(entries, name);
      if k.None? {
        entries := entries + [Header(name, [])];
        k := Some(|entries| - 1);
      }
      entries := entries[k.value := entries[k.value].(value := value)];
    }

    // What http3_event_cb does to the response headers on a HEADERS event.
    method InitResponse()
      modifies this
      ensures entries == Initialised(old(entries))
    {
      Insert(STATUS, OK);
      Insert(SERVER, QUICHE);
      Insert(CONTENT_LENGTH, FIVE);
    }

    // get_http3_headers: the list has the entries in table order, two of them
    // with their values brought up to date in the table as well.
    method GetHttp3Headers(status: Str, len: nat) returns (list: array<Header>)
      modifies this
      ensures fresh(list) && entries == Rewritten(old(entries), status, len) && list[..] == entries
    {
      list := new Header[|entries|](_ => Header([], []));
      ghost var was := entries;
      for idx := 0 to |entries|
        invariant |entries| == |was| == list.Length
        invariant forall k :: 0 <= k < idx ==> entries[k] == Rewrite(was[k], status, len) && list[k] == entries[k]
        invariant entries[idx..] == was[idx..]
      {
        var current := entries[idx];
        assert current == was[idx..][0];
        if MatchesName(current.name, STATUS) {
          current := current.(value := status);
        } else if MatchesName(current.name, CONTENT_LENGTH) {
          current := current.(value := Decimal(len));
        }
        entries := entries[idx := current];
        list[idx] := current;
      }
    }
  }

  function Initialised(hs: seq<Header>): seq<Header> {
    Upsert(Upsert(Upsert(hs, STATUS, OK), SERVER, QUICHE), CONTENT_LENGTH, FIVE)
  }

  function Lower(s: Str): Str {
    seq(|s|, i requires 0 <= i < |s| => if 65 <= s[i] <= 90 then s[i] + 32 else s[i])
  }

  // strncasecmp(name, known, n_name) == 0: only the length of the name counts, so
  // every prefix of the known name matches it.
  predicate MatchesName(name: Str, known: Str) {
    Lower(name) <= Lower(known)
  }

  // Two bytes that differ at most in the case of a letter.
  predicate SameLetter(a: byte, b: byte) {
    a == b || (65 <= a <= 90 && b == a + 32) || (65 <= b <= 90 && a == b + 32)
  }

  // A name matches exactly if it is, but for the case of its letters, the beginning
  // of the known name.
  lemma MatchesExactlyPrefixes(name: Str, known: Str)
    ensures MatchesName(name, known)
       <==> |name| <= |known| && forall i :: 0 <= i < |name| ==> SameLetter(name[i], known[i])
  {
    if MatchesName(name, known) {
      forall i | 0 <= i < |name|
        ensures SameLetter(name[i], known[i])
      {
        assert Lower(name)[i] == Lower(known)[i];
      }
    }
    if |name| <= |known| && forall i :: 0 <= i < |name| ==> SameLetter(name[i], known[i]) {
      assert forall i :: 0 <= i < |name| ==> Lower(name)[i] == Lower(known)[i];
    }
  }

  function Rewrite(h: Header, status: Str, len: nat): Header {
    if MatchesName(h.name, STATUS) then h.(value := status)
    else if MatchesName(h.name, CONTENT_LENGTH) then h.(value := Decimal(len))
    else h
  }

  function Rewritten(hs: seq<Header>, status: Str, len: nat): (t: seq<Header>)
    ensures |t| == |hs| && forall i :: 0 <= i < |hs| ==> t[i] == Rewrite(hs[i], status, len)
  {
    seq(|hs|, i requires 0 <= i < |hs| => Rewrite(hs[i], status, len))
  }

  // sprintf("%zu")
  function Decimal(n: nat): (s: Str)
    ensures s != []
  {
    if n < 10 then [48 + n] else Decimal(n / 10) + [48 + n % 10]
  }

  // The number a decimal numeral denotes.
  function Parse(s: Str): int {
    if s == [] then 0 else 10 * Parse(s[..|s| - 1]) + s[|s| - 1] as int - 48
  }

  lemma {:induction false} DecimalParses(n: nat)
    ensures Parse(Decimal(n)) == n
    ensures forall i :: 0 <= i < |Decimal(n)| ==> 48 <= Decimal(n)[i] <= 57
    ensures |Decimal(n)| > 1 ==> Decimal(n)[0] != 48
  {
    if n >= 10 {
      DecimalParses(n / 10);
      assert Decimal(n)[..|Decimal(n)| - 1] == Decimal(n / 10);
      if |Decimal(n / 10)| == 1 { assert n / 10 < 10; }
    }
  }

  // ------------------------------------------------------------------------- runs

  // The response table changes with every HEADERS event of the connection and
  // with every response sent.
  datatype Event = HeadersEvent | ResponseSent(status: Str, len: nat)

  function Run(events: seq<Event>): seq<Header> {
    if events == [] then []
    else
      var before := Run(events[..|events| - 1]);
      match events[|events| - 1]
      case HeadersEvent => Initialised(before)
      case ResponseSent(status, len) => Rewritten(before, status, len)
  }

  predicate StandardNames(hs: seq<Header>) {
    |hs| == 3 && hs[0].name == STATUS && hs[1] == Header(SERVER, QUICHE) && hs[2].name == CONTENT_LENGTH
  }

  // However often events occur: from the first HEADERS event on, the table has
  // exactly the three entries, in the order of their first insertion.
  lemma {:induction false} ThreeEntries(events: seq<Event>)
    ensures if HeadersEvent in events then StandardNames(Run(events)) else Run(events) == []
  {
    if events != [] {
      var before := events[..|events| - 1];
      ThreeEntries(before);
      assert events == before + [events[|events| - 1]];
      if HeadersEvent in before {
        StandardStays(Run(before), events[|events| - 1]);
      } else if events[|events| - 1].HeadersEvent? {
        InitialisedFromEmpty();
      }
    }
  }

  lemma InitialisedFromEmpty()
    ensures Initialised([]) == [Header(STATUS, OK), Header(SERVER, QUICHE), Header(CONTENT_LENGTH, FIVE)]
  {
  }

  lemma KnownNames()
    ensures MatchesName(STATUS, STATUS) && MatchesName(CONTENT_LENGTH, CONTENT_LENGTH)
    ensures !MatchesName(SERVER, STATUS) && !MatchesName(SERVER, CONTENT_LENGTH)
    ensures !MatchesName(CONTENT_LENGTH, STATUS)
  {
    assert Lower(SERVER)[0] != Lower(STATUS)[0];
    assert Lower(SERVER)[0] != Lower(CONTENT_LENGTH)[0];
    assert Lower(CONTENT_LENGTH)[0] != Lower(STATUS)[0];
  }

  lemma StandardStays(hs: seq<Header>, e: Event)
    requires StandardNames(hs)
    ensures StandardNames(match e case HeadersEvent => Initialised(hs) case ResponseSent(st, n) => Rewritten(hs, st, n))
  {
    KnownNames();
    if e.HeadersEvent? {
      assert STATUS != SERVER && STATUS != CONTENT_LENGTH && SERVER != CONTENT_LENGTH by {
        assert STATUS[0] != SERVER[0] && STATUS[0] != CONTENT_LENGTH[0] && SERVER[0] != CONTENT_LENGTH[0];
      }
    }
  }

  // The list sent with a response: :status comes first and has the status given;
  // the content length is a numeral for the length given; server is unchanged.
  lemma ListSent(events: seq<Event>, status: Str, len: nat)
    requires HeadersEvent in events
    ensures var list := Rewritten(Run(events), status, len);
      && |list| == 3
      && list[0] == Header(STATUS, status)
      && list[1] == Header(SERVER, QUICHE)
      && list[2].name == CONTENT_LENGTH && Parse(list[2].value) == len
  {
    ThreeEntries(events);
    KnownNames();
    DecimalParses(len);
  }
}
