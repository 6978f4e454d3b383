// The resumable response sender of main/http3/http3.c: a timer callback that
// reads the response from a descriptor, offers chunks to the HTTP/3 stream and
// remembers how far it got. The descriptor is a local file, which can seek, or,
// for a module or the error page, a socket or a pipe, which cannot.
module Sender {
  import opened Common

  // sizeof(buf) in future_write_cb
  const CHUNK: nat := 14515

  // content_lenght is a size_t; -1 means that it is not known yet.
  const UNKNOWN: nat := SIZE_MODULUS - 1

  // size_t to int
  function ToInt(n: nat): int {
    var m := n % INT_MODULUS;
    if m < INT_MODULUS / 2 then m else m - INT_MODULUS
  }

  // The result is the number that fits an int, and differs from n by a multiple of
  // the int's range.
  lemma ToIntWraps(n: nat)
    ensures -0x8000_0000 <= ToInt(n) < 0x8000_0000 && (n - ToInt(n)) % 0x1_0000_0000 == 0
  {
  }

  // What quiche_h3_send_body says: a number of bytes, QUICHE_H3_ERR_DONE, or
  // another error code, here -code.
  datatype Answer = Accepted(count: nat) | Done | Failed(code: ErrorCode)

  type ErrorCode = c: nat | c >= 2 witness 2

  // One turn of the send loop as the outside world decides it: how many bytes
  // read() returns and what the transport answers.
  datatype Io = Io(got: nat, answer: Answer)

  // What the transport has been asked to send on the stream, and its answers.
  datatype Call = SentHeaders | SentBody(bytes: seq<byte>, fin: bool, answer: Answer)

  // `pos` and `off` are where the callback and the descriptor think the transfer
  // is. The process may have ended, or be in a loop that does not end.
  datatype State = State(
    headersSent: bool,
    contentLength: nat,
    pos: int,
    len: int,
    eof: bool,
    off: nat,
    seekable: bool,
    pending: bool,
    fdOpen: bool,
    exited: bool,
    stuck: bool,
    calls: seq<Call>)

  // What the descriptor still has to give.
  function Left(content: seq<byte>, off: nat): nat {
    if off <= |content| then |content| - off else 0
  }

  // read() returns between 1 and `most` bytes, or none at the end; a script that
  // has run out, or asks for the impossible, reads all it can.
  function Got(plan: seq<Io>, most: nat): (n: nat)
    ensures n <= most && (n == 0 <==> most == 0)
  {
    if plan != [] && 0 < plan[0].got <= most then plan[0].got else most
  }

  function Answered(plan: seq<Io>, n: nat): Answer {
    if plan == [] then Accepted(n)
    else if plan[0].answer.Accepted? then Accepted(Min(plan[0].answer.count, n))
    else plan[0].answer
  }

  function Rest(plan: seq<Io>): seq<Io> { if plan == [] then [] else plan[1..] }

  // The value quiche_h3_send_body returns for an answer.
  function Written(answer: Answer): int {
    match answer
    case Accepted(w) => w
    case Done => -1
    case Failed(code) => 0 - code
  }

  function Chunk(content: seq<byte>, off: nat, n: nat): seq<byte>
    requires n <= Left(content, off)
  {
    if n == 0 then [] else content[off..off + n]
  }

  // lseek() to the position fails for a socket or a pipe, and for a negative
  // position; nobody looks at its result.
  function Sought(s: State): State {
    if s.seekable && s.pos >= 0 then s.(off := s.pos) else s
  }

  // One turn of the loop of future_write_cb.
  function Turn(s: State, content: seq<byte>, n: nat, answer: Answer): State
    requires n <= Left(content, s.off)
  {
    var fin := s.eof || s.pos + n >= s.len;
    var call := SentBody(Chunk(content, s.off, n), fin, answer);
    var t := s.(eof := fin, off := s.off + n, calls := s.calls + [call]);
    if answer.Done? then t.(exited := true)
    else t.(pos := s.pos + Written(answer), pending := s.pending || Written(answer) != n)
  }

  // The loop of future_write_cb: it goes on while whole chunks are accepted. Once
  // nothing is left to read, a chunk is empty, and accepted as such by a transport
  // that takes what it is given: when the script has run out, the loop goes on for
  // ever. A loop without end always comes to this point, since only answers of
  // zero keep it going.
  function SendLoop(s: State, content: seq<byte>, plan: seq<Io>): State
    decreases Left(content, s.off), |plan|
  {
    if s.pos >= s.len then s
    else
      var n := Got(plan, Min(CHUNK, Left(content, s.off)));
      if n == 0 && plan == [] then s.(stuck := true)
      else
        var answer := Answered(plan, n);
        var t := Turn(s, content, n, answer);
        if Written(answer) == n then SendLoop(t, content, Rest(plan)) else t
  }

  // The length the callback works with.
  function LengthUsed(s: State): int {
    if s.headersSent then s.len else ToInt(s.contentLength)
  }

  // future_write_cb, run by the timer, which is thereby no longer pending.
  function Callback(s: State, content: seq<byte>, closed: bool, plan: seq<Io>): State {
    var woken := s.(pending := false);
    if closed then woken
    else if !s.headersSent && s.contentLength == UNKNOWN then woken.(pending := true)
    else
      var ready :=
        if s.headersSent then woken
        else woken.(headersSent := true, len := ToInt(s.contentLength), calls := s.calls + [SentHeaders]);
      var t := SendLoop(Sought(ready), content, plan);
      if t.eof && !t.exited && !t.stuck then t.(pending := false, fdOpen := false) else t
  }

  // ------------------------------------------------------------------ the object

  // struct http_response, shared with the rest of the connection, and the calls
  // made on the stream.
  class HttpResponse {
    var headersSent: bool
    var contentLength: nat
    var calls: seq<Call>

    constructor (contentLength: nat)
      ensures !headersSent && this.contentLength == contentLength && calls == []
    {
      headersSent, this.contentLength, calls := false, contentLength, [];
    }
  }

  class FutureWrite {
    const hs: HttpResponse
    const content: seq<byte>
    const seekable: bool
    var pos: int
    var len: int
    var eof: bool
    var off: nat
    var pending: bool
    var fdOpen: bool
    var exited: bool
    var stuck: bool

    function View(): State
      reads this, hs
    {
      State(hs.headersSent, hs.contentLength, pos, len, eof, off, seekable, pending, fdOpen, exited, stuck, hs.calls)
    }

    // send_response: schedules the first callback.
    constructor (hs: HttpResponse, content: seq<byte>, seekable: bool)
      ensures this.hs == hs && this.content == content && this.seekable == seekable
      ensures View()
           == State(hs.headersSent, hs.contentLength, 0, -1, false, 0, seekable, true, true, false, false, hs.calls)
    {
      this.hs, this.content, this.seekable := hs, content, seekable;
      pos, len, eof, off, pending, fdOpen, exited, stuck := 0, -1, false, 0, true, true, false, false;
    }

    // The loop body: read n bytes and offer them.
    method SendChunk(n: nat, answer: Answer) returns (written: int)
      requires !exited && !stuck && n <= Left(content, off)
      modifies this, hs
      ensures View() == Turn(old(View()), content, n, answer) && written == Written(answer)
    {
      var buf := Chunk(content, off, n);
      off := off + n;
      if pos + n >= len {
        eof := true;
      }
      hs.calls := hs.calls + [SentBody(buf, eof, answer)];
      written := Written(answer);
      if answer.Done? {
        exited := true;
        return;
      }
      pos := pos + written;
      if written != n {
        pending := true;
      }
    }

    // The send loop.
    method SendBody(plan: seq<Io>)
      requires !exited && !stuck
      modifies this, hs
      ensures View() == SendLoop(old(View()), content, plan)
    {
      hide Turn;
      ghost var ready := View();
      var script := plan;
      while pos < len
        invariant !exited && !stuck
        invariant SendLoop(View(), content, script) == SendLoop(ready, content, plan)
        decreases Left(content, off), |script|
      {
        var n := Got(script, Min(CHUNK, Left(content, off)));
        if n == 0 && script == [] {
          // The source goes on here, and never stops.
          stuck := true;
          break;
        }
        var answer := Answered(script, n);
        TurnFacts(View(), content, n, answer);
        var written := SendChunk(n, answer);
        script := Rest(script);
        if written != n {
          break;
        }
      }
    }

    method FutureWriteCb(closed: bool, plan: seq<Io>)
      requires !exited && !stuck
      modifies this, hs
      ensures View() == Callback(old(View()), content, closed, plan)
    {
      hide SendLoop, ToInt;
      pending := false;
      if closed {
        return;
      }
      if !hs.headersSent && hs.contentLength != UNKNOWN {
        hs.calls := hs.calls + [SentHeaders];
        hs.headersSent := true;
        len := ToInt(hs.contentLength);
      } else if !hs.headersSent && hs.contentLength == UNKNOWN {
        pending := true;
        return;
      }
      if seekable && pos >= 0 {
        off := pos;
      }
      SendBody(plan);
      // Neither exit(0) nor an endless loop comes back here.
      if eof && !exited && !stuck {
        pending := false;
        fdOpen := false;
      }
    }
  }

  lemma TurnFacts(s: State, content: seq<byte>, n: nat, answer: Answer)
    requires n <= Left(content, s.off)
    ensures var t := Turn(s, content, n, answer);
      && t.len == s.len && t.off == s.off + n && t.stuck == s.stuck && t.seekable == s.seekable
      && t.pos == s.pos + (if answer.Done? then 0 else Written(answer))
      && (Written(answer) == n ==> t.exited == s.exited)
  {
  }
}
