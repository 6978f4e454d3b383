// What the sender guarantees over every run of timer callbacks, for files and for
// streams: descriptors that can seek, and sockets and pipes, which cannot.
module SenderRuns {
  import opened Common
  import opened Sender

  // The bytes of a call that the transport took.
  function Taken(c: Call): seq<byte> {
    if c.SentBody? && c.answer.Accepted? && c.answer.count <= |c.bytes| then c.bytes[..c.answer.count] else []
  }

  // All bytes the transport took, in order.
  function Delivered(calls: seq<Call>): seq<byte> {
    if calls == [] then [] else Delivered(calls[..|calls| - 1]) + Taken(calls[|calls| - 1])
  }

  function BytesOf(c: Call): seq<byte> {
    if c.SentBody? then c.bytes else []
  }

  // All bytes the transport was given, in order.
  function Offered(calls: seq<Call>): seq<byte> {
    if calls == [] then [] else Offered(calls[..|calls| - 1]) + BytesOf(calls[|calls| - 1])
  }

  function ErrorIn(c: Call): nat {
    if c.SentBody? && c.answer.Failed? then c.answer.code else 0
  }

  // The error codes the transport has answered with, added up.
  function Errors(calls: seq<Call>): nat {
    if calls == [] then 0 else Errors(calls[..|calls| - 1]) + ErrorIn(calls[|calls| - 1])
  }

  // A body call was accepted to its last byte.
  predicate Whole(c: Call) {
    c.SentBody? ==> c.answer == Accepted(|c.bytes|)
  }

  predicate AllWhole(calls: seq<Call>) {
    forall i :: 0 <= i < |calls| ==> Whole(calls[i])
  }

  // Headers come first and only once; every body call but possibly the last one
  // leaves the end flag off.
  predicate WellOrdered(calls: seq<Call>) {
    |calls| > 0 && calls[0] == SentHeaders
    && (forall i :: 0 < i < |calls| ==> calls[i].SentBody?)
    && (forall i :: 0 < i < |calls| - 1 ==> !calls[i].fin)
  }

  predicate Fin(calls: seq<Call>) {
    |calls| > 0 && calls[|calls| - 1].SentBody? && calls[|calls| - 1].fin
  }

  // The last body call was accepted to its last byte.
  predicate FullyAccepted(calls: seq<Call>) {
    |calls| > 0 && calls[|calls| - 1].SentBody? && Whole(calls[|calls| - 1])
  }

  // The end flag goes only with a chunk that is the end of the content.
  predicate FinReaches(calls: seq<Call>, content: seq<byte>) {
    Fin(calls) ==>
      var bytes := calls[|calls| - 1].bytes;
      |bytes| <= |content| && bytes == content[|content| - |bytes|..]
  }

  lemma Appended(calls: seq<Call>, c: Call)
    ensures Delivered(calls + [c]) == Delivered(calls) + Taken(c)
    ensures Offered(calls + [c]) == Offered(calls) + BytesOf(c)
    ensures Errors(calls + [c]) == Errors(calls) + ErrorIn(c)
    ensures AllWhole(calls + [c]) <==> AllWhole(calls) && Whole(c)
    ensures (calls + [c])[..|calls + [c]| - 1] == calls
  {
    assert (calls + [c])[..|calls|] == calls;
    assert AllWhole(calls + [c]) ==> AllWhole(calls) && Whole(c) by {
      assert forall i :: 0 <= i < |calls| ==> (calls + [c])[i] == calls[i];
      assert (calls + [c])[|calls|] == c;
    }
  }

  // ------------------------------------------------------------------- the books

  // What is kept for a stream: it has been offered up to its offset, each byte
  // once. The position, and the number of bytes delivered, is the offset exactly
  // if every chunk was accepted whole; and the end flag goes out only if every
  // chunk before it was.
  predicate StreamTracked(s: State, content: seq<byte>) {
    && s.off <= |content| && Offered(s.calls) == content[..s.off] && |Delivered(s.calls)| <= s.off
    && (AllWhole(s.calls) <==> s.pos == s.off) && (AllWhole(s.calls) <==> |Delivered(s.calls)| == s.off)
    && (Fin(s.calls) ==> s.off == |content| && AllWhole(s.calls[..|s.calls| - 1]))
  }

  // A transfer of the whole of `content` whose headers are out, whatever the
  // transport has answered: the position is what has been delivered, less the
  // error codes.
  predicate Tracked(s: State, content: seq<byte>) {
    && s.headersSent && s.len == |content| && s.pos <= s.off <= |content|
    && WellOrdered(s.calls) && FinReaches(s.calls, content)
    && |Delivered(s.calls)| == s.pos + Errors(s.calls)
    && (s.seekable && Errors(s.calls) == 0 ==> Delivered(s.calls) == content[..s.pos])
    && (!s.seekable ==> StreamTracked(s, content))
  }

  // Still in the loop, or between two callbacks.
  predicate UnderWay(s: State, content: seq<byte>) {
    && Tracked(s, content) && !s.eof && s.fdOpen && !s.exited && !s.stuck
    && !Fin(s.calls) && s.pos < |content|
  }

  // A file without errors behind it is read where the callback thinks it is: this
  // is so when the loop starts, and as long as it goes on.
  predicate Placed(s: State) {
    s.seekable && Errors(s.calls) == 0 ==> s.off == s.pos
  }

  // The end flag is with the transport and the file is closed. The position is at
  // the end if and only if the last chunk was accepted in full; otherwise the
  // transfer has been cut short for good.
  predicate Ended(s: State, content: seq<byte>) {
    && Tracked(s, content)
    && s.eof && !s.pending && !s.fdOpen && !s.exited && !s.stuck && Fin(s.calls)
    && (s.pos == |content| <==> FullyAccepted(s.calls))
  }

  // Nothing has been sent; the length may not be known yet.
  predicate Waiting(s: State, content: seq<byte>) {
    && !s.headersSent && s.pos == 0 && s.off == 0 && s.len == -1
    && !s.eof && s.fdOpen && !s.exited && !s.stuck && s.calls == []
    && (s.contentLength == UNKNOWN || s.contentLength == |content|)
  }

  // The process has stopped in mid-transfer (QUICHE_H3_ERR_DONE).
  predicate Stopped(s: State, content: seq<byte>) {
    Tracked(s, content) && s.exited && s.pos < |content|
  }

  // The process is in a loop without end: everything has been read, and the
  // position is not at the end.
  predicate Spinning(s: State, content: seq<byte>) {
    Tracked(s, content) && s.stuck && !s.eof && s.fdOpen && !Fin(s.calls) && s.pos < s.off == |content|
  }

  // The callback's last words after the loop.
  function Closing(t: State): State {
    if t.eof && !t.exited && !t.stuck then t.(pending := false, fdOpen := false) else t
  }

  predicate Fitting(answer: Answer, n: nat) { answer.Accepted? ==> answer.count <= n }

  // A read returns nothing only at the end.
  predicate Reads(s: State, content: seq<byte>, n: nat) {
    n <= Left(content, s.off) && (n == 0 ==> Left(content, s.off) == 0)
  }

  // The bytes of a chunk follow those read before, and, if that is where the
  // position is, those accepted follow those delivered before.
  lemma ChunkFollows(content: seq<byte>, off: nat, n: nat, fin: bool, answer: Answer)
    requires off + n <= |content| && Fitting(answer, n)
    ensures |Chunk(content, off, n)| == n && content[..off] + Chunk(content, off, n) == content[..off + n]
    ensures off + n == |content| ==> Chunk(content, off, n) == content[|content| - n..]
    ensures var got := Taken(SentBody(Chunk(content, off, n), fin, answer));
      |got| == (if answer.Accepted? then answer.count else 0) && content[..off] + got == content[..off + |got|]
  {
  }

  lemma CallFollows(calls: seq<Call>, c: Call, content: seq<byte>)
    requires WellOrdered(calls) && !Fin(calls) && c.SentBody?
    requires c.fin ==> |c.bytes| <= |content| && c.bytes == content[|content| - |c.bytes|..]
    ensures WellOrdered(calls + [c]) && FinReaches(calls + [c], content) && (Fin(calls + [c]) <==> c.fin)
    ensures FullyAccepted(calls + [c]) <==> c.answer == Accepted(|c.bytes|)
  {
  }

  lemma StreamTurns(s: State, content: seq<byte>, n: nat, answer: Answer)
    requires StreamTracked(s, content) && !s.eof && !Fin(s.calls) && s.len == |content|
    requires s.pos <= s.off && s.pos < |content| && Reads(s, content, n) && Fitting(answer, n)
    ensures StreamTracked(Turn(s, content, n, answer), content)
  {
    hide Delivered, Offered, Errors, Taken, Chunk, AllWhole;
    var t, fin := Turn(s, content, n, answer), s.pos + n >= s.len;
    var c := SentBody(Chunk(content, s.off, n), fin, answer);
    Appended(s.calls, c);
    ChunkFollows(content, s.off, n, fin, answer);
    assert t.calls == s.calls + [c] && t.off == s.off + n && t.off - t.pos >= s.off - s.pos;
    assert Whole(c) <==> answer == Accepted(n);
    assert fin ==> s.pos == s.off && t.off == |content|;
    assert s.pos == s.off ==> n > 0;
    hide Turn, Whole;
    assert AllWhole(t.calls) <==> t.pos == t.off;
  }

  // What one turn enters in the books.
  lemma TurnTracks(s: State, content: seq<byte>, n: nat, answer: Answer)
    requires UnderWay(s, content) && Placed(s) && Reads(s, content, n) && Fitting(answer, n)
    ensures var t := Turn(s, content, n, answer);
      && Tracked(t, content) && (Fin(t.calls) <==> s.pos + n == |content|)
      && (FullyAccepted(t.calls) <==> answer == Accepted(n))
      && Errors(t.calls) == Errors(s.calls) + (if answer.Failed? then answer.code else 0)
  {
    hide Delivered, Offered, Errors, Taken, WellOrdered, Fin, FinReaches, FullyAccepted, Chunk, AllWhole, StreamTracked;
    var c := SentBody(Chunk(content, s.off, n), s.pos + n >= s.len, answer);
    Appended(s.calls, c);
    ChunkFollows(content, s.off, n, s.pos + n >= s.len, answer);
    CallFollows(s.calls, c, content);
    assert Turn(s, content, n, answer).calls == s.calls + [c];
    if !s.seekable {
      StreamTurns(s, content, n, answer);
    }
  }

  // Where one turn of the send loop leads.
  lemma TurnOutcome(s: State, content: seq<byte>, n: nat, answer: Answer)
    requires UnderWay(s, content) && Placed(s) && Reads(s, content, n) && Fitting(answer, n)
    ensures var t := Turn(s, content, n, answer);
      && Errors(t.calls) == Errors(s.calls) + (if answer.Failed? then answer.code else 0)
      && t.pos == s.pos + (if answer.Done? then 0 else Written(answer)) && t.off == s.off + n
      && if answer.Done? then Stopped(t, content)
         else if s.pos + n == |content| then Ended(Closing(t), content)
         else
           && UnderWay(t, content) && (t.pending <==> s.pending || Written(answer) < n)
           && (Written(answer) == n ==> Placed(t))
  {
    hide Delivered, Offered, Errors, WellOrdered, Fin, FinReaches, FullyAccepted, AllWhole;
    TurnTracks(s, content, n, answer);
  }

  // The loop is endless if nothing is left to read, and otherwise one turn, and the
  // loop again if the chunk was taken whole and was not the last one.
  lemma LoopTurn(s: State, content: seq<byte>, plan: seq<Io>)
    requires UnderWay(s, content)
    ensures var n := Got(plan, Min(CHUNK, Left(content, s.off)));
      var answer := Answered(plan, n);
      && Reads(s, content, n) && Fitting(answer, n)
      && var t := Turn(s, content, n, answer);
      && t.len == |content|
      && SendLoop(s, content, plan)
         == if n == 0 && plan == [] then s.(stuck := true)
            else if Written(answer) == n && s.pos + n < |content| then SendLoop(t, content, Rest(plan)) else t
  {
  }

  // How the send loop can end, from any point of a transfer under way.
  lemma {:induction false} LoopOutcome(s: State, content: seq<byte>, plan: seq<Io>)
    requires UnderWay(s, content) && Placed(s) && !s.pending
    ensures var t := SendLoop(s, content, plan);
      || Stopped(t, content) || Spinning(t, content)
      || (UnderWay(t, content) && t.pending) || Ended(Closing(t), content)
    ensures var t := SendLoop(s, content, plan);
      t.pos == |content| ==> Errors(t.calls) == Errors(s.calls)
    decreases Left(content, s.off), |plan|
  {
    LoopTurn(s, content, plan);
    var n := Got(plan, Min(CHUNK, Left(content, s.off)));
    if n == 0 && plan == [] {
      assert Spinning(s.(stuck := true), content);
    } else {
      hide UnderWay, Ended, Stopped, Spinning, Placed, SendLoop, Turn;
      var answer := Answered(plan, n);
      TurnOutcome(s, content, n, answer);
      if Written(answer) == n && s.pos + n < |content| {
        LoopOutcome(Turn(s, content, n, answer), content, Rest(plan));
      }
    }
  }

  // -------------------------------------------------------------------- whole runs

  // The timer fires, with the connection closed or open; or the module that
  // writes the response makes its length known.
  datatype Event = Fire(closed: bool, plan: seq<Io>) | LengthKnown

  predicate Enabled(s: State, e: Event) {
    match e
    case Fire(_, _) => s.pending && !s.exited && !s.stuck
    case LengthKnown => s.contentLength == UNKNOWN
  }

  // A connection that was found closed leaves the transfer where it was, asleep.
  predicate Good(s: State, content: seq<byte>) {
    || Waiting(s, content) || UnderWay(s, content)
    || Ended(s, content) || Stopped(s, content) || Spinning(s, content)
  }

  predicate Sendable(content: seq<byte>) {
    0 < |content| < INT_MODULUS / 2
  }

  function Step(s: State, content: seq<byte>, e: Event): State {
    match e
    case Fire(closed, plan) => if Enabled(s, e) then Callback(s, content, closed, plan) else s
    case LengthKnown => if Enabled(s, e) then s.(contentLength := |content|) else s
  }

  // The state in which the send loop starts.
  function Ready(s: State): State {
    var woken := s.(pending := false);
    Sought(
      if s.headersSent then woken
      else woken.(headersSent := true, len := ToInt(s.contentLength), calls := s.calls + [SentHeaders]))
  }

  // The callback gets to the send loop.
  predicate Starts(s: State) {
    s.headersSent || s.contentLength != UNKNOWN
  }

  // Seeking changes nothing in the books, and puts a file in its place.
  lemma ReadyUnderWay(s: State, content: seq<byte>)
    requires (Waiting(s, content) || UnderWay(s, content)) && Sendable(content) && Starts(s)
    ensures UnderWay(Ready(s), content) && Placed(Ready(s))
    ensures Ready(s).seekable == s.seekable && Ready(s).pos == s.pos && !Ready(s).pending
    ensures Errors(Ready(s).calls) == Errors(s.calls) && Delivered(Ready(s).calls) == Delivered(s.calls)
  {
    hide Delivered, Offered, Errors, AllWhole;
    HeadersOnly();
  }

  lemma HeadersOnly()
    ensures forall calls: seq<Call> :: calls == [] || calls == [SentHeaders] ==>
      && Delivered(calls) == [] && Offered(calls) == [] && Errors(calls) == 0 && AllWhole(calls)
  {
    Appended([], SentHeaders);
    assert [] + [SentHeaders] == [SentHeaders];
  }

  lemma CallbackLoops(s: State, content: seq<byte>, plan: seq<Io>)
    requires Starts(s)
    ensures Callback(s, content, false, plan) == Closing(SendLoop(Ready(s), content, plan))
  {
  }

  lemma StepGood(s: State, content: seq<byte>, e: Event)
    requires Good(s, content) && Sendable(content)
    ensures Good(Step(s, content, e), content)
    ensures Step(s, content, e).seekable == s.seekable
  {
    if e.Fire? && Enabled(s, e) && !e.closed && Starts(s) {
      assert Waiting(s, content) || UnderWay(s, content);
      ReadyUnderWay(s, content);
      CallbackLoops(s, content, e.plan);
      hide Waiting, Tracked, Sought, SendLoop;
      LoopOutcome(Ready(s), content, e.plan);
      SameDescriptor(Ready(s), content, e.plan);
    } else {
      hide SendLoop, Delivered, Offered, Errors;
    }
  }

  lemma {:induction false} SameDescriptor(s: State, content: seq<byte>, plan: seq<Io>)
    ensures SendLoop(s, content, plan).seekable == s.seekable
    decreases Left(content, s.off), |plan|
  {
    var n := Got(plan, Min(CHUNK, Left(content, s.off)));
    if s.pos < s.len && !(n == 0 && plan == []) {
      hide Turn;
      var answer := Answered(plan, n);
      TurnFacts(s, content, n, answer);
      if Written(answer) == n {
        SameDescriptor(Turn(s, content, n, answer), content, Rest(plan));
      }
    }
  }

  // send_response leaves the transfer like this; `known` says whether the router
  // has already measured the file.
  function Scheduled(content: seq<byte>, seekable: bool, known: bool): State {
    State(false, if known then |content| else UNKNOWN, 0, -1, false, 0, seekable, true, true, false, false, [])
  }

  function Run(content: seq<byte>, seekable: bool, known: bool, events: seq<Event>): (s: State)
    requires Sendable(content)
    ensures Good(s, content) && s.seekable == seekable
  {
    if events == [] then Scheduled(content, seekable, known)
    else
      var before := Run(content, seekable, known, events[..|events| - 1]);
      StepGood(before, content, events[|events| - 1]);
      Step(before, content, events[|events| - 1])
  }

  // Over every run, whatever the descriptor: headers come once and first, the end
  // flag goes only with the last chunk, and only with one that is the end of the
  // content; the transfer is over exactly when the end flag has gone out. The
  // number of bytes delivered is the position plus the error codes reported. For a
  // file, what is delivered is the file up to the position exactly if there were
  // none, and then, at the end, it is the whole file if and only if the last chunk
  // was accepted in full.
  lemma EveryRunDelivers(content: seq<byte>, seekable: bool, known: bool, events: seq<Event>)
    requires Sendable(content)
    ensures var s := Run(content, seekable, known, events);
      && (s.calls == [] || WellOrdered(s.calls)) && (s.headersSent <==> s.calls != [])
      && FinReaches(s.calls, content)
      && (!s.exited ==> (s.eof <==> Fin(s.calls)) && (s.eof <==> !s.fdOpen) && (s.eof ==> !s.pending))
      && |Delivered(s.calls)| == s.pos + Errors(s.calls) && s.pos <= |content|
      && (seekable ==>
        && ((0 <= s.pos && Delivered(s.calls) == content[..s.pos]) <==> Errors(s.calls) == 0)
        && (s.eof && !s.exited && Errors(s.calls) == 0 ==>
          (Delivered(s.calls) == content <==> FullyAccepted(s.calls))))
  {
    var s := Run(content, seekable, known, events);
    assert Good(s, content);
    if 0 <= s.pos {
      assert |content[..s.pos]| == s.pos;
    }
    assert content[..|content|] == content;
  }

  // Over every run on a stream: what is offered is the stream up to its offset,
  // each byte once, so that what is refused is lost. All that has been read is
  // delivered exactly if every chunk was accepted whole, and exactly then the
  // position is where the stream is. The end flag goes out only after chunks
  // accepted whole; and of a transfer that is over, the whole content has been
  // delivered exactly if the last chunk was accepted whole, too.
  lemma EveryStreamDelivers(content: seq<byte>, known: bool, events: seq<Event>)
    requires Sendable(content)
    ensures var s := Run(content, false, known, events);
      && s.off <= |content| && Offered(s.calls) == content[..s.off]
      && (Delivered(s.calls) == content[..s.off] <==> AllWhole(s.calls))
      && (s.pos == s.off <==> AllWhole(s.calls))
      && (Fin(s.calls) ==> s.off == |content| && AllWhole(s.calls[..|s.calls| - 1]))
      && (s.eof && !s.exited ==> (Delivered(s.calls) == content <==> FullyAccepted(s.calls)))
  {
    hide Run, Good, StreamTracked, Delivered, Offered, AllWhole, Fin, FullyAccepted;
    var s := Run(content, false, known, events);
    StreamGood(s, content);
    StreamDelivers(s, content);
  }

  lemma StreamDelivers(s: State, content: seq<byte>)
    requires StreamTracked(s, content)
    ensures Delivered(s.calls) == content[..s.off] <==> AllWhole(s.calls)
    ensures Fin(s.calls) ==> s.off == |content| && (AllWhole(s.calls) <==> FullyAccepted(s.calls))
    ensures s.off == |content| ==> content[..s.off] == content
  {
    hide Delivered, Offered, AllWhole, Fin, FullyAccepted;
    if AllWhole(s.calls) {
      WholeDelivered(s.calls);
    }
    if Fin(s.calls) {
      LastWhole(s.calls);
    }
  }

  lemma StreamGood(s: State, content: seq<byte>)
    requires Good(s, content) && !s.seekable
    ensures StreamTracked(s, content) && (s.eof && !s.exited ==> Fin(s.calls))
    ensures s.off <= |content| && Offered(s.calls) == content[..s.off]
    ensures s.pos == s.off <==> AllWhole(s.calls)
    ensures Fin(s.calls) ==> AllWhole(s.calls[..|s.calls| - 1])
  {
  }

  lemma LastWhole(calls: seq<Call>)
    requires Fin(calls) && AllWhole(calls[..|calls| - 1])
    ensures AllWhole(calls) <==> FullyAccepted(calls)
  {
    assert calls == calls[..|calls| - 1] + [calls[|calls| - 1]];
    Appended(calls[..|calls| - 1], calls[|calls| - 1]);
  }

  lemma {:induction false} WholeDelivered(calls: seq<Call>)
    requires AllWhole(calls)
    ensures Delivered(calls) == Offered(calls)
  {
    if calls != [] {
      var c := calls[|calls| - 1];
      assert Whole(c);
      assert c.SentBody? ==> c.bytes[..|c.bytes|] == c.bytes;
      WholeDelivered(calls[..|calls| - 1]);
    }
  }

  // ------------------------------------------------------------ what is in a plan

  // What is left of `left` bytes after k turns that each take their whole chunk.
  function LeftAfter(plan: seq<Io>, left: nat, k: nat): (rest: nat)
    ensures rest <= left
  {
    if k == 0 then left else LeftAfter(Rest(plan), left - Got(plan, Min(CHUNK, left)), k - 1)
  }

  // The size of the chunk offered in the k-th turn.
  function ChunkSize(plan: seq<Io>, left: nat, k: nat): nat
    requires k <= |plan|
  {
    Got(plan[k..], Min(CHUNK, LeftAfter(plan, left, k)))
  }

  predicate TakesChunk(plan: seq<Io>, left: nat, k: nat)
    requires k < |plan|
  {
    plan[k].answer.Accepted? && plan[k].answer.count >= ChunkSize(plan, left, k)
  }

  // A loop that keeps going has another turn: always, if it is `endless`, and else
  // as long as something is left to read.
  predicate GoesOn(plan: seq<Io>, left: nat, endless: bool, k: nat) {
    endless || LeftAfter(plan, left, k) > 0
  }

  // All answers take whole chunks, as far as the loop goes.
  predicate AllTaken(plan: seq<Io>, left: nat, endless: bool) {
    forall k :: 0 <= k < |plan| && GoesOn(plan, left, endless, k) ==> TakesChunk(plan, left, k)
  }

  // The plan has a failure in store, all answers before it take whole chunks, and
  // the loop gets to it.
  predicate FailureAhead(plan: seq<Io>, left: nat, endless: bool) {
    exists i :: 0 <= i < |plan| && FailsAt(plan, left, endless, i)
  }

  predicate FailsAt(plan: seq<Io>, left: nat, endless: bool, i: nat)
    requires i < |plan|
  {
    && plan[i].answer.Failed? && GoesOn(plan, left, endless, i)
    && forall k :: 0 <= k < i ==> TakesChunk(plan, left, k)
  }

  // A turn of the rest of a plan is the next turn of the plan.
  lemma NextTurn(plan: seq<Io>, left: nat, endless: bool, k: nat)
    requires k + 1 < |plan|
    ensures var less := left - Got(plan, Min(CHUNK, left));
      && (TakesChunk(plan, left, k + 1) <==> TakesChunk(plan[1..], less, k))
      && (GoesOn(plan, left, endless, k + 1) <==> GoesOn(plan[1..], less, endless, k))
  {
    assert plan[k + 1..] == plan[1..][k..];
  }

  lemma FirstTurn(plan: seq<Io>, left: nat, endless: bool)
    requires plan != []
    ensures TakesChunk(plan, left, 0)
       <==> plan[0].answer.Accepted? && plan[0].answer.count >= Got(plan, Min(CHUNK, left))
    ensures GoesOn(plan, left, endless, 0) <==> endless || left > 0
  {
    assert plan[0..] == plan;
  }

  // The first turn of a plan, and the rest of it.
  lemma AllTakenStep(plan: seq<Io>, left: nat, endless: bool)
    requires plan != []
    ensures var n := Got(plan, Min(CHUNK, left));
      AllTaken(plan, left, endless) <==>
        && (endless || left > 0 ==> plan[0].answer.Accepted? && plan[0].answer.count >= n)
        && AllTaken(plan[1..], left - n, endless)
  {
    hide TakesChunk, GoesOn;
    var rest, less := plan[1..], left - Got(plan, Min(CHUNK, left));
    FirstTurn(plan, left, endless);
    if AllTaken(plan, left, endless) {
      forall k | 0 <= k < |rest| && GoesOn(rest, less, endless, k)
        ensures TakesChunk(rest, less, k)
      {
        NextTurn(plan, left, endless, k);
      }
    }
    if AllTaken(rest, less, endless) {
      forall k | 0 < k < |plan| && GoesOn(plan, left, endless, k)
        ensures TakesChunk(plan, left, k)
      {
        NextTurn(plan, left, endless, k - 1);
      }
    }
  }

  lemma FailureAheadStep(plan: seq<Io>, left: nat, endless: bool)
    requires plan != []
    ensures var n := Got(plan, Min(CHUNK, left));
      FailureAhead(plan, left, endless) <==>
        || (plan[0].answer.Failed? && (endless || left > 0))
        || (plan[0].answer.Accepted? && plan[0].answer.count >= n && FailureAhead(plan[1..], left - n, endless))
  {
    hide TakesChunk, GoesOn;
    var rest, less := plan[1..], left - Got(plan, Min(CHUNK, left));
    FirstTurn(plan, left, endless);
    assert FailsAt(plan, left, endless, 0) <==> plan[0].answer.Failed? && (endless || left > 0);
    if i: nat :| i < |plan| && FailsAt(plan, left, endless, i) && i > 0 {
      FailsNext(plan, left, endless, i - 1);
    }
    if i: nat :| i < |rest| && FailsAt(rest, less, endless, i) {
      FailsNext(plan, left, endless, i);
      assert TakesChunk(plan, left, 0) ==> FailsAt(plan, left, endless, i + 1);
    }
  }

  lemma FailsNext(plan: seq<Io>, left: nat, endless: bool, i: nat)
    requires i + 1 < |plan|
    ensures FailsAt(plan, left, endless, i + 1)
       <==> TakesChunk(plan, left, 0) && FailsAt(plan[1..], left - Got(plan, Min(CHUNK, left)), endless, i)
  {
    hide TakesChunk, GoesOn;
    var rest, less := plan[1..], left - Got(plan, Min(CHUNK, left));
    NextTurn(plan, left, endless, i);
    if FailsAt(plan, left, endless, i + 1) {
      forall k | 0 <= k < i
        ensures TakesChunk(rest, less, k)
      {
        NextTurn(plan, left, endless, k);
      }
    }
    if TakesChunk(plan, left, 0) && FailsAt(rest, less, endless, i) {
      forall k | 0 < k < i + 1
        ensures TakesChunk(plan, left, k)
      {
        NextTurn(plan, left, endless, k - 1);
      }
    }
  }

  lemma AnswerTakes(plan: seq<Io>, n: nat)
    ensures var answer := Answered(plan, n);
      && Fitting(answer, n) && Written(answer) <= n
      && (Written(answer) == n <==> answer == Accepted(n))
      && (Written(answer) == n
          <==> plan == [] || (plan[0].answer.Accepted? && plan[0].answer.count >= n))
      && (answer.Failed? <==> plan != [] && plan[0].answer.Failed?)
  {
  }

  lemma NothingLeft(plan: seq<Io>)
    ensures AllTaken(plan, 0, false) && !FailureAhead(plan, 0, false)
  {
  }

  lemma NoPlan(left: nat, endless: bool)
    ensures AllTaken([], left, endless) && !FailureAhead([], left, endless)
  {
  }

  // -------------------------------------------------------------------- completion

  // From any place in the content, not beyond the descriptor's: the loop gets to
  // the end exactly if the descriptor is where the position is and every answer
  // takes its whole chunk.
  lemma {:induction false} LoopReaches(s: State, content: seq<byte>, plan: seq<Io>)
    requires s.pos <= s.off <= |content| == s.len
    ensures SendLoop(s, content, plan).pos == |content|
       <==> s.off == s.pos && AllTaken(plan, Left(content, s.off), false)
    decreases Left(content, s.off), |plan|
  {
    hide AllTaken, Turn, Answered, Written;
    var left := Left(content, s.off);
    var n := Got(plan, Min(CHUNK, left));
    NoPlan(left, false);
    NoPlan(left - n, false);
    NothingLeft(plan);
    if s.pos < s.len && !(n == 0 && plan == []) {
      var answer := Answered(plan, n);
      AnswerTakes(plan, n);
      TurnFacts(s, content, n, answer);
      if plan != [] {
        AllTakenStep(plan, left, false);
      }
      if Written(answer) == n {
        LoopReaches(Turn(s, content, n, answer), content, Rest(plan));
      }
    }
  }

  // One callback delivers all that is left, from wherever the transfer stands,
  // exactly if the descriptor is where the position is and every answer takes its
  // whole chunk.
  lemma CompletesExactlyWhen(s: State, content: seq<byte>, plan: seq<Io>)
    requires (Waiting(s, content) || UnderWay(s, content)) && Sendable(content) && Starts(s)
    ensures var r, t := Ready(s), Callback(s, content, false, plan);
      && (t.pos == |content| <==> r.off == r.pos && AllTaken(plan, Left(content, r.off), false))
      && (t.pos == |content| ==> Ended(t, content) && Errors(t.calls) == Errors(s.calls))
      && (t.pos == |content| && Errors(s.calls) == 0 ==> Delivered(t.calls) == content)
  {
    ReadyUnderWay(s, content);
    CallbackLoops(s, content, plan);
    var r := Ready(s);
    assert r.pos <= r.off <= |content| == r.len;
    LoopOutcome(r, content, plan);
    LoopReaches(r, content, plan);
    hide Waiting, Placed, Ready, SendLoop, Callback, AllTaken, Errors, Delivered;
    var t := Callback(s, content, false, plan);
    if t.pos == |content| && Errors(s.calls) == 0 {
      DeliveredAll(t, content);
    }
  }

  // A transport that takes whatever one read can give.
  lemma WillingTransportCompletes(s: State, content: seq<byte>, plan: seq<Io>)
    requires (Waiting(s, content) || UnderWay(s, content)) && Sendable(content) && Starts(s)
    requires forall io :: io in plan ==> io.answer.Accepted? && io.answer.count >= CHUNK
    ensures var r, t := Ready(s), Callback(s, content, false, plan);
      r.off == r.pos ==> t.pos == |content| && Ended(t, content)
  {
    CompletesExactlyWhen(s, content, plan);
    forall k | 0 <= k < |plan|
      ensures TakesChunk(plan, Left(content, Ready(s).off), k)
    {
      assert plan[k] in plan;
    }
  }

  lemma DeliveredAll(t: State, content: seq<byte>)
    requires Tracked(t, content) && t.pos == |content| && Errors(t.calls) == 0
    ensures Delivered(t.calls) == content
  {
    assert content[..|content|] == content;
    if !t.seekable {
      hide AllWhole, Delivered, Offered, Errors;
      WholeDelivered(t.calls);
    }
  }

  // A loop of one turn: the only chunk of the plan is not accepted whole.
  lemma OnlyTurn(s: State, content: seq<byte>, n: nat, answer: Answer)
    requires s.pos < s.len && 0 < n <= Min(CHUNK, Left(content, s.off))
    requires Fitting(answer, n) && Written(answer) != n
    ensures var t := SendLoop(s, content, [Io(n, answer)]);
      && t == Turn(s, content, n, answer)
      && Delivered(t.calls) == Delivered(s.calls)
         + (if answer.Accepted? then content[s.off..s.off + answer.count] else [])
  {
    hide Delivered, Offered, Errors, AllWhole;
    var plan := [Io(n, answer)];
    assert Got(plan, Min(CHUNK, Left(content, s.off))) == n && Answered(plan, n) == answer;
    var c := SentBody(Chunk(content, s.off, n), s.eof || s.pos + n >= s.len, answer);
    assert Taken(c) == if answer.Accepted? then content[s.off..s.off + answer.count] else [];
    Appended(s.calls, c);
  }

  // The last chunk, of two bytes, is accepted by half: the transfer is over, its
  // timer is off and its file closed, and one byte was never delivered.
  lemma CutShort()
    ensures var t := Callback(Scheduled([65, 66], true, true), [65, 66], false, [Io(2, Accepted(1))]);
      t.eof && !t.pending && !t.fdOpen && Delivered(t.calls) == [65]
  {
    hide Delivered, SendLoop;
    var content: seq<byte> := [65, 66];
    var start := Ready(Scheduled(content, true, true));
    assert start.calls == [SentHeaders];
    HeadersOnly();
    OnlyTurn(start, content, 2, Accepted(1));
  }

  // ------------------------------------------------------------------- wake-ups

  lemma {:induction false} LoopWakes(s: State, content: seq<byte>, plan: seq<Io>)
    requires !s.exited && !s.stuck && !s.pending
    ensures var t := SendLoop(s, content, plan);
      (t.exited || t.stuck || t.eof || t.pending) <==> (s.eof || s.pos < s.len)
    decreases Left(content, s.off), |plan|
  {
    var n := Got(plan, Min(CHUNK, Left(content, s.off)));
    if s.pos < s.len && !(n == 0 && plan == []) {
      var answer := Answered(plan, n);
      if Written(answer) == n {
        LoopWakes(Turn(s, content, n, answer), content, Rest(plan));
      }
    }
  }

  // From any state at all, whatever the transport answers: a callback on an open
  // connection that comes back leaves the transfer ended or with its timer set,
  // exactly if it was ended before, or its length is not known, or there is
  // something to send. So an empty response, one whose length turns non-positive
  // as an int, and a second response on the same stream object are never finished
  // and never woken.
  lemma WakesUpExactlyWhen(s: State, content: seq<byte>, plan: seq<Io>)
    requires !s.exited && !s.stuck
    ensures var t := Callback(s, content, false, plan);
      (t.exited || t.stuck || t.eof || t.pending) <==> (s.eof || !Starts(s) || s.pos < LengthUsed(s))
  {
    if Starts(s) {
      CallbackLoops(s, content, plan);
      LoopWakes(Ready(s), content, plan);
    }
  }

  // An empty file: the headers go out, and that is the last that happens.
  lemma EmptyResponseSleeps()
    ensures var t := Callback(Scheduled([], true, true), [], false, []);
      t.calls == [SentHeaders] && !t.eof && !t.pending && t.fdOpen && !t.stuck
  {
  }

  lemma {:induction false} LoopSticks(s: State, content: seq<byte>, plan: seq<Io>)
    requires !s.stuck
    ensures var left := Left(content, s.off);
      SendLoop(s, content, plan).stuck <==> s.pos + left < s.len && AllTaken(plan, left, true)
    decreases Left(content, s.off), |plan|
  {
    hide AllTaken, Turn;
    var left := Left(content, s.off);
    var n := Got(plan, Min(CHUNK, left));
    NoPlan(left, true);
    NoPlan(left - n, true);
    if s.pos < s.len && !(n == 0 && plan == []) {
      var answer := Answered(plan, n);
      TurnFacts(s, content, n, answer);
      if plan != [] {
        AllTakenStep(plan, left, true);
      }
      if Written(answer) == n {
        LoopSticks(Turn(s, content, n, answer), content, Rest(plan));
      }
    }
  }

  // From any state at all: a callback on an open connection never comes back
  // exactly if what the descriptor still has to give does not bring the position
  // to the end, and every answer takes its whole chunk. This is so for a file that
  // is shorter than the length announced, too.
  lemma SticksExactlyWhen(s: State, content: seq<byte>, plan: seq<Io>)
    requires !s.exited && !s.stuck
    ensures var r := Ready(s);
      var left := Left(content, r.off);
      Callback(s, content, false, plan).stuck
      <==> Starts(s) && r.pos + left < r.len && AllTaken(plan, left, true)
  {
    if Starts(s) {
      CallbackLoops(s, content, plan);
      LoopSticks(Ready(s), content, plan);
    }
  }

  lemma GoodHasWork(s: State, content: seq<byte>)
    requires Good(s, content) && Sendable(content) && Enabled(s, Fire(false, []))
    ensures !Starts(s) || s.pos < LengthUsed(s)
    ensures s.off <= |content| && (!Starts(s) ==> s.pos == 0 && AllWhole(s.calls))
    ensures Starts(s) ==>
      && Ready(s).pos == s.pos && Ready(s).len == |content| && Left(content, Ready(s).off) <= |content| - s.pos
      && (s.pos + Left(content, Ready(s).off) < |content|
          <==> if s.seekable then s.pos < 0 else !AllWhole(s.calls))
      && ((s.seekable && s.pos >= 0) || Ready(s).off == s.off)
  {
    hide Delivered, Offered, Errors, WellOrdered, FinReaches, Fin;
  }

  // A length that is negative as an int: the headers go out, and nothing more.
  lemma HugeResponseSleeps(content: seq<byte>, seekable: bool, plan: seq<Io>)
    requires 0x8000_0000 <= |content| < 0x1_0000_0000
    ensures var t := Callback(Scheduled(content, seekable, true), content, false, plan);
      t.calls == [SentHeaders] && !t.eof && !t.pending && t.fdOpen && !t.stuck && t.len < 0
  {
  }

  // A callback that finds the connection closed, or the length still unknown, does
  // nothing but to give up its timer, or to set it again.
  lemma IdleCallback(s: State, content: seq<byte>, closed: bool, plan: seq<Io>)
    requires closed || (!s.headersSent && s.contentLength == 0xFFFF_FFFF_FFFF_FFFF)
    ensures Callback(s, content, closed, plan) == s.(pending := !closed)
  {
  }

  // The events of a run after another.
  function RunOn(s: State, content: seq<byte>, events: seq<Event>): State {
    if events == [] then s
    else Step(RunOn(s, content, events[..|events| - 1]), content, events[|events| - 1])
  }

  // A connection found closed ends the transfer for good, in any state: whatever
  // comes later, no call is made any more, and nothing changes but a length that
  // becomes known.
  lemma {:induction false} ClosedForGood(s: State, content: seq<byte>, plan: seq<Io>, later: seq<Event>)
    requires Enabled(s, Fire(true, plan))
    ensures var t := RunOn(Step(s, content, Fire(true, plan)), content, later);
      t == s.(pending := false, contentLength := t.contentLength)
  {
    IdleCallback(s, content, true, plan);
    if later != [] {
      hide Callback;
      ClosedForGood(s, content, plan, later[..|later| - 1]);
    }
  }

  // In every run, a callback on an open connection leaves the transfer over or
  // with its timer set, or never comes back. The last is so exactly if every
  // answer takes its whole chunk, and, for a file, error codes have made the
  // position negative, or, for a stream, some chunk was not accepted whole before.
  lemma NeverAsleep(content: seq<byte>, seekable: bool, known: bool, events: seq<Event>, plan: seq<Io>)
    requires Sendable(content) && Enabled(Run(content, seekable, known, events), Fire(false, plan))
    ensures var s := Run(content, seekable, known, events);
      var t := Step(s, content, Fire(false, plan));
      && (t.exited || t.stuck || t.eof || t.pending)
      && (t.stuck <==>
        && (if seekable then s.pos < 0 else !AllWhole(s.calls))
        && s.off <= |content| && AllTaken(plan, |content| - s.off, true))
  {
    var s := Run(content, seekable, known, events);
    GoodHasWork(s, content);
    hide Good, Callback, AllTaken, AllWhole, Ready;
    WakesUpExactlyWhen(s, content, plan);
    SticksExactlyWhen(s, content, plan);
  }

  // -------------------------------------------------------------------- failures

  // The position counts the bytes delivered.
  predicate InStep(s: State) { |Delivered(s.calls)| == s.pos }

  lemma {:induction false} LoopErrs(s: State, content: seq<byte>, plan: seq<Io>)
    requires s.pos <= s.off <= |content| == s.len
    ensures Errors(SendLoop(s, content, plan).calls) == Errors(s.calls)
       <==> !FailureAhead(plan, Left(content, s.off), s.off != s.pos)
    decreases Left(content, s.off), |plan|
  {
    hide FailureAhead, Errors, Turn, Answered, Written;
    var left, endless := Left(content, s.off), s.off != s.pos;
    var n := Got(plan, Min(CHUNK, left));
    NoPlan(left, endless);
    NoPlan(left - n, endless);
    NothingLeft(plan);
    if s.pos < s.len && !(n == 0 && plan == []) {
      var answer := Answered(plan, n);
      AnswerTakes(plan, n);
      TurnFacts(s, content, n, answer);
      TurnErrs(s, content, n, answer);
      if plan != [] {
        FailureAheadStep(plan, left, endless);
      }
      if Written(answer) == n {
        LoopErrs(Turn(s, content, n, answer), content, Rest(plan));
      }
    }
  }

  lemma TurnErrs(s: State, content: seq<byte>, n: nat, answer: Answer)
    requires n <= Left(content, s.off)
    ensures Errors(Turn(s, content, n, answer).calls) == Errors(s.calls) <==> !answer.Failed?
  {
    var c := SentBody(Chunk(content, s.off, n), s.eof || s.pos + n >= s.len, answer);
    hide Errors, Delivered, Offered, AllWhole;
    Appended(s.calls, c);
  }

  lemma TrackedInStep(s: State, content: seq<byte>)
    requires Tracked(s, content)
    ensures InStep(s) <==> Errors(s.calls) == 0
  {
  }

  // One callback keeps position and delivery in step exactly if the plan has no
  // failure ahead of it.
  lemma InStepExactlyWhen(s: State, content: seq<byte>, plan: seq<Io>)
    requires (Waiting(s, content) || UnderWay(s, content)) && Sendable(content) && Starts(s) && InStep(s)
    ensures var r := Ready(s);
      InStep(Callback(s, content, false, plan))
      <==> !FailureAhead(plan, Left(content, r.off), r.off != r.pos)
  {
    ReadyUnderWay(s, content);
    CallbackLoops(s, content, plan);
    var r, t := Ready(s), Callback(s, content, false, plan);
    assert r.pos <= r.off <= |content| == r.len && Tracked(r, content);
    LoopOutcome(r, content, plan);
    LoopErrs(r, content, plan);
    hide Waiting, Tracked, Placed, Ready, SendLoop, Callback, FailureAhead, Errors, Delivered, InStep;
    assert Tracked(t, content);
    TrackedInStep(r, content);
    TrackedInStep(t, content);
    assert InStep(r);
  }

  // One byte, one blocked stream: the position is now thirteen before the start.
  lemma FailureGoesBack()
    ensures var t := Callback(Scheduled([65], true, true), [65], false, [Io(1, Failed(13))]);
      t.pos == -13 && Delivered(t.calls) == [] && !InStep(t)
  {
    hide Delivered, SendLoop;
    var content: seq<byte> := [65];
    var start := Ready(Scheduled(content, true, true));
    assert start.calls == [SentHeaders];
    HeadersOnly();
    OnlyTurn(start, content, 1, Failed(13));
  }

  // --------------------------------------------------------------------- streams

  // A stream of 30000 bytes, two chunks of which are accepted in part: the bytes
  // refused of the first one are never sent again, and the third callback never
  // comes back.
  lemma StreamLosesBytes(content: seq<byte>)
    requires |content| == 30000
    ensures
      var first := Callback(Scheduled(content, false, true), content, false, [Io(CHUNK, Accepted(10000))]);
      var second := Callback(first, content, false, [Io(CHUNK, Accepted(5000))]);
      && second.pos == 15000 && second.off == 29030 && second.pending
      && Delivered(second.calls) == content[..10000] + content[14515..19515]
      && Callback(second, content, false, []).stuck
  {
    hide Delivered, SendLoop;
    var start := Ready(Scheduled(content, false, true));
    assert start.calls == [SentHeaders];
    HeadersOnly();
    OnlyTurn(start, content, CHUNK, Accepted(10000));
    var first := Callback(Scheduled(content, false, true), content, false, [Io(CHUNK, Accepted(10000))]);
    OnlyTurn(Ready(first), content, CHUNK, Accepted(5000));
    var second := Callback(first, content, false, [Io(CHUNK, Accepted(5000))]);
    NoPlan(970, true);
    SticksExactlyWhen(second, content, []);
  }
}
