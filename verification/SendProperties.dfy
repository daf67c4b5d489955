/** What holds of the sending half over whole runs. */
module SendProperties {
  import opened Common
  import opened SizeField
  import opened RingBuffer
  import opened Framing
  import opened SendSide

  function PendingMessages(pending: seq<PendingSend>): (ms: seq<Message>)
    ensures |ms| == |pending|
    ensures forall i :: 0 <= i < |ms| ==> ms[i] == pending[i].msg
  {
    seq(|pending|, i requires 0 <= i < |pending| => pending[i].msg)
  }

  lemma MessagesConcat(calls: seq<Call>, a: seq<nat>, b: seq<nat>)
    requires AllBelow(a + b, |calls|)
    ensures AllBelow(a, |calls|) && AllBelow(b, |calls|)
    ensures MessagesOf(calls, a + b) == MessagesOf(calls, a) + MessagesOf(calls, b)
  {
    assert forall i :: 0 <= i < |a| ==> (a + b)[i] == a[i];
    assert forall i :: 0 <= i < |b| ==> (a + b)[|a| + i] == b[i];
  }

  lemma PendingAreRecorded(log: Log, pending: seq<PendingSend>)
    requires InOrder(log, pending) && AllBelow(CallsOf(pending), |log.calls|)
    ensures MessagesOf(log.calls, CallsOf(pending)) == PendingMessages(pending)
  {
    hide Live;
    assert forall i :: 0 <= i < |pending| ==> pending[i] in pending;
  }

  /** The bytes handed to the peer are always a beginning of the frames of the accepted and not
      cancelled messages, in submission order. Until an error, what is missing is exactly what
      the ring and the pending sends hold: nothing overtakes, nothing is sent twice or in part. */
  lemma StreamInOrder(s: Sender)
    requires Inv(s)
    ensures s.wire <= Frames(LiveMessages(s.log))
    ensures s.error.None? ==>
              s.wire + s.ring.bytes + Frames(PendingMessages(s.pending)) == Frames(LiveMessages(s.log))
  {
    hide Live, Frames, CompletedOnce;
    var sent, rest := s.log.sent, s.log.dropped + CallsOf(s.pending);
    ConcatAssociative(sent, s.log.dropped, CallsOf(s.pending));
    MessagesConcat(s.log.calls, sent, rest);
    FramesConcat(MessagesOf(s.log.calls, sent), MessagesOf(s.log.calls, rest));
    if s.error.None? {
      assert rest == CallsOf(s.pending);
      PendingAreRecorded(s.log, s.pending);
    }
  }

  // ----- what callers are told -----

  /** TrySend says yes exactly if the message has taken its place behind all others accepted so
      far; otherwise it has left no trace on the stream. It throws exactly after an error. */
  lemma TryIsAllOrNothing(s: Sender, msg: Message)
    requires Inv(s)
    ensures var (s', r) := TrySend(s, msg);
            && AllBelow(Live(s'.log.calls), |s'.log.calls|)
            && (r.Thrown? <==> s.error.Some?)
            && LiveMessages(s'.log) == LiveMessages(s.log) + (if r == Returned(true) then [msg] else [])
            && (r != Returned(true) ==> s'.ring == s.ring && s'.wire == s.wire && s'.pending == s.pending)
  {
    hide InOrder, StreamOk, CompletedOnce, TagsDistinct, WritesOk, Live, MessagesOf;
    var (s', r) := TrySend(s, msg);
    var c := Call(msg, false, if r == Returned(true) then Accepted else Rejected);
    assert s'.log.calls == s.log.calls + [c];
    LiveGrows(s.log.calls, c);
  }

  lemma LiveGrows(calls: seq<Call>, c: Call)
    ensures MessagesOf(calls + [c], Live(calls + [c])) ==
            MessagesOf(calls, Live(calls)) + (if c.status.Accepted? then [c.msg] else [])
  {
    LiveAppend(calls, c);
    MessagesSame(calls, calls + [c], Live(calls));
    if c.status.Accepted? {
      MessagesAppend(calls + [c], Live(calls), |calls|);
    }
  }

  /** SendAsync accepts the message behind all others, unless there was an error, which the
      handler is then told. */
  lemma AsyncIsAccepted(s: Sender, msg: Message, tag: int)
    requires Inv(s)
    ensures var s' := SendAsync(s, msg, tag);
            && AllBelow(Live(s'.log.calls), |s'.log.calls|)
            && LiveMessages(s'.log) == LiveMessages(s.log) + (if s.error.None? then [msg] else [])
            && (s.error.Some? ==>
                  s'.log.completions == s.log.completions + [SendCompletion(|s.log.calls|, SendFailed(s.error.value))])
  {
    hide InOrder, StreamOk, CompletedOnce, TagsDistinct, WritesOk, Live, MessagesOf;
    var s' := SendAsync(s, msg, tag);
    var c := Call(msg, true, if s.error.None? then Accepted else Rejected);
    assert s'.log.calls == s.log.calls + [c];
    LiveGrows(s.log.calls, c);
  }

  // ----- what a cancellation does -----

  /** It finds the pending send with the tag, if there is one; that send, and no other, is no
      longer pending, its handler is told, and neither ring nor wire are touched. */
  lemma CancelHitsTag(s: Sender, tag: int)
    requires Inv(s) && tag != 0
    ensures var (s', found) := CancelSend(s, tag);
            && (found <==> exists i :: 0 <= i < |s.pending| && s.pending[i].tag == tag)
            && (forall p :: p in s'.pending <==> p in s.pending && p.tag != tag)
            && s' == s.(pending := s'.pending, log := s'.log)
            && s'.log.sent == s.log.sent && s'.log.dropped == s.log.dropped
            && (!found ==> s' == s)
            && (found ==>
                  exists i ::
                    && 0 <= i < |s.pending| && s.pending[i].tag == tag
                    && s'.pending == s.pending[..i] + s.pending[i + 1..]
                    && s'.log.completions ==
                         s.log.completions + [SendCompletion(s.pending[i].call, SendCanceled)])
  {
    hide InOrder, StreamOk, CompletedOnce, FindTag, WritesOk, AllFit;
    var i := FindTag(s.pending, tag);
    if i < |s.pending| {
      WithoutTag(s.pending, i, tag);
    }
  }

  lemma WithoutTag(pending: seq<PendingSend>, i: nat, tag: int)
    requires TagsDistinct(pending) && i < |pending| && pending[i].tag == tag != 0
    ensures forall p :: p in pending[..i] + pending[i + 1..] <==> p in pending && p.tag != tag
  {
    assert pending == pending[..i] + [pending[i]] + pending[i + 1..];
    assert forall k :: 0 <= k < |pending| && k != i ==> pending[k].tag != tag;
    assert forall p :: p in pending[..i] ==> p.tag != tag;
    assert forall p :: p in pending[i + 1..] ==> p.tag != tag;
  }

  // ----- everything accepted gets out -----

  /** The bytes still to be handed over. */
  function Remaining(s: Sender): nat {
    |s.ring.bytes| + |Frames(PendingMessages(s.pending))|
  }

  lemma {:induction false} RetryKeepsCalls(s: Sender)
    requires s.ring.Valid()
    ensures Retry(s).log.calls == s.log.calls && Retry(s).wire == s.wire
    decreases |s.pending|
  {
    if s.pending != [] && CanSend(s.ring, |s.pending[0].msg|) {
      RetryKeepsCalls(SendFirst(s));
    }
  }

  /** A completed write brings the end nearer by exactly the bytes it transferred, and a write
      is under way as long as anything remains. */
  lemma WriteProgress(s: Sender, n: nat)
    requires Inv(s) && s.outstanding.Some? && n <= s.outstanding.value
    ensures var s' := Next(s, Written(n));
            && s'.error.None? && s'.log.calls == s.log.calls && s'.wire == s.wire + s.ring.bytes[..n]
            && Remaining(s') == Remaining(s) - n
            && (Remaining(s') > 0 ==> s'.outstanding.Some?)
  {
    hide Live, Frames, CompletedOnce, InOrder, StreamOk;
    WriteCompletedKeepsInv(s, n);
    var s' := CommitWritten(s, n);
    RetryKeepsCalls(if s'.ring.bytes != [] then SendSome(s') else s');
    StreamInOrder(s);
    StreamInOrder(WriteCompleted(s, n));
    if WriteCompleted(s, n).outstanding.None? {
      NothingRemains(WriteCompleted(s, n));
    }
  }

  /** With no write under way, and no error, everything accepted has been handed over, and no
      handler waits. */
  lemma NothingRemains(s: Sender)
    requires Inv(s) && s.error.None? && s.outstanding.None?
    ensures Remaining(s) == 0 && s.pending == [] && s.wire == Frames(LiveMessages(s.log))
  {
    hide Live, CompletedOnce;
    StreamInOrder(s);
    assert PendingMessages([]) == [];
  }

  lemma OutstandingIsPositive(s: Sender)
    requires Inv(s) && s.outstanding.Some?
    ensures s.outstanding.value > 0 && s.error.None?
  {
  }

  /** Every event completes the write that is under way, with at least one byte. */
  ghost predicate OnlyWrites(s: Sender, events: seq<Event>)
    requires Inv(s)
  {
    forall i :: 0 <= i < |events| ==> Writes(Run(s, events[..i]), events[i])
  }

  ghost predicate Writes(s: Sender, e: Event) {
    e.Written? && s.outstanding.Some? && 1 <= e.n <= s.outstanding.value
  }

  /** However little the transport transfers at a time, from every reachable error-free state there
      are at most as many writes as bytes remain, there is another one as long as anything remains,
      and then everything accepted has reached the peer. */
  lemma {:induction false} WritesSendAll(s: Sender, events: seq<Event>)
    requires Inv(s) && s.error.None? && OnlyWrites(s, events)
    ensures var s' := Run(s, events);
            && s'.error.None? && s'.log.calls == s.log.calls
            && |events| + Remaining(s') <= Remaining(s)
            && if s'.outstanding.Some? then Writes(s', Written(1))
               else s'.wire == Frames(LiveMessages(s.log)) && s'.pending == []
  {
    hide Inv, Next, Live, Frames, Writes;
    if events != [] {
      var n := |events| - 1;
      assert forall i :: 0 <= i < n ==> events[..n][..i] == events[..i];
      WritesSendAll(s, events[..n]);
      WriteStep(Run(s, events[..n]), events[n]);
    }
    GoesOnOrDone(Run(s, events));
  }

  lemma WriteStep(s: Sender, e: Event)
    requires Inv(s) && Writes(s, e)
    ensures var s' := Next(s, e);
            s'.error.None? && s'.log.calls == s.log.calls && Remaining(s') < Remaining(s)
  {
    hide Inv, Next, Live, Frames;
    WriteProgress(s, e.n);
  }

  lemma GoesOnOrDone(s: Sender)
    requires Inv(s) && s.error.None?
    ensures if s.outstanding.Some? then Writes(s, Written(1))
            else s.wire == Frames(LiveMessages(s.log)) && s.pending == []
  {
    hide Inv, Live, Frames;
    if s.outstanding.Some? {
      OutstandingIsPositive(s);
    } else {
      NothingRemains(s);
    }
  }

  // ----- each operation, told by its effects -----

  /** There is room for the message with its size field, and nothing waits in front of it. */
  ghost predicate GoesOutNow(s: Sender, msg: Message) {
    s.error.None? && s.pending == [] && |s.ring.bytes| + |Encode(|msg|)| + |msg| <= s.ring.capacity
  }

  /** The message is on the ring behind the bytes already there, with its size field in front; if no
      write was under way, there is one now, with all bytes that lie in one piece. */
  ghost predicate Queued(s: Sender, s': Sender, msg: Message)
    requires s.ring.Valid()
  {
    && s'.ring == s.ring.(bytes := s.ring.bytes + Encode(|msg|) + msg) && s'.log.sent == s.log.sent + [|s.log.calls|]
    && s'.running
    && s'.outstanding == if s.running then s.outstanding
                         else Some(Min(|s'.ring.bytes|, s.ring.capacity + 1 - s.ring.start))
  }

  /** Ring, peer and writes are left alone. */
  ghost predicate StreamSame(s: Sender, s': Sender) {
    && s'.ring == s.ring && s'.log.sent == s.log.sent
    && s'.running == s.running && s'.outstanding == s.outstanding
  }

  /** What no call of a sending method touches */
  ghost predicate CallOnly(s: Sender, s': Sender, c: Call) {
    && s'.wire == s.wire && s'.error == s.error
    && s'.log.calls == s.log.calls + [c] && s'.log.dropped == s.log.dropped
  }

  /** TrySend says yes exactly if the message, with its size field, fits behind the bytes in the ring
      and nothing waits in front of it, and throws exactly after an error, that error. */
  lemma TrySendAnswers(s: Sender, msg: Message)
    requires s.ring.Valid()
    ensures var (s', r) := TrySend(s, msg);
            && (r == Returned(true) <==> GoesOutNow(s, msg))
            && (r.Thrown? <==> s.error.Some?) && (r.Thrown? ==> Some(r.code) == s.error)
            && CallOnly(s, s', Call(msg, false, if r == Returned(true) then Accepted else Rejected))
            && s'.pending == s.pending && s'.log.completions == s.log.completions
            && if r == Returned(true) then Queued(s, s', msg) else StreamSame(s, s')
  {
  }

  /** What callers must not submit is exactly what not even an empty ring has room for. */
  lemma FitsAnEmptyRing(s: Sender, msg: Message)
    requires s.ring.Valid() && s.ring.bytes == [] && s.error.None? && s.pending == []
    ensures TrySend(s, msg).1 == Returned(true) <==> Fits(msg, s.ring.capacity)
    ensures Fits(msg, s.ring.capacity) <==> |Encode(|msg|) + msg| <= s.ring.capacity
  {
  }

  /** The handler of SendAsync is called at once, with success exactly if the message goes out now,
      and with the error exactly if there was one; otherwise the message waits behind all others. */
  lemma SendAsyncAnswers(s: Sender, msg: Message, tag: int)
    requires s.ring.Valid()
    ensures var s' := SendAsync(s, msg, tag);
            var call := |s.log.calls|;
            && CallOnly(s, s', Call(msg, true, if s.error.Some? then Rejected else Accepted))
            && (if GoesOutNow(s, msg) then Queued(s, s', msg) else StreamSame(s, s'))
            && s'.log.completions == s.log.completions +
                 (if GoesOutNow(s, msg) then [SendCompletion(call, Sent)]
                  else if s.error.Some? then [SendCompletion(call, SendFailed(s.error.value))]
                  else [])
            && s'.pending == s.pending +
                 (if GoesOutNow(s, msg) || s.error.Some? then [] else [PendingSend(tag, msg, call)])
  {
  }

  /** The handlers of the pending sends, called in order with the same outcome */
  function Told(pending: seq<PendingSend>, outcome: SendOutcome): (cs: seq<SendCompletion>)
    ensures |cs| == |pending|
    ensures forall i :: 0 <= i < |cs| ==> cs[i] == SendCompletion(pending[i].call, outcome)
  {
    seq(|pending|, i requires 0 <= i < |pending| => SendCompletion(pending[i].call, outcome))
  }

  lemma {:induction false} AllAreTold(s: Sender, code: int)
    ensures var s' := Abandon(s, code);
            && s'.log.completions == s.log.completions + Told(s.pending, SendFailed(code))
            && s'.log.dropped == s.log.dropped + CallsOf(s.pending) && s'.pending == []
            && s'.log.calls == s.log.calls && s'.log.sent == s.log.sent
            && s' == s.(pending := [], log := s'.log)
    decreases |s.pending|
  {
    if s.pending == [] {
    } else {
      hide Told, CallsOf;
      var c, p := SendCompletion(s.pending[0].call, SendFailed(code)), s.pending[0].call;
      AllAreTold(AbandonFirst(s, code), code);
      ToldFirst(s.pending, SendFailed(code));
      CallsFirst(s.pending);
      ConcatAssociative(s.log.completions, [c], Told(s.pending[1..], SendFailed(code)));
      ConcatAssociative(s.log.dropped, [p], CallsOf(s.pending[1..]));
    }
  }

  lemma ToldFirst(pending: seq<PendingSend>, outcome: SendOutcome)
    requires pending != []
    ensures Told(pending, outcome) == [SendCompletion(pending[0].call, outcome)] + Told(pending[1..], outcome)
  {
  }

  /** A failed write is final: the error is kept, the handlers of all pending sends are called with
      it in the order of the calls, and no write is issued any more. */
  lemma FailedWriteTellsAll(s: Sender, n: nat, code: int)
    requires Inv(s) && Enabled(s, Broken(n, code))
    ensures var s' := Next(s, Broken(n, code));
            && s'.error == Some(code) && s'.pending == [] && s'.outstanding == None && s'.running == s.running
            && s'.log.completions ==
                 s.log.completions +
                 seq(|s.pending|, i requires 0 <= i < |s.pending| =>
                     SendCompletion(s.pending[i].call, SendFailed(code)))
            && s'.ring == s.ring && s'.wire == s.wire + s.ring.bytes[..n]
            && s'.log.calls == s.log.calls && s'.log.sent == s.log.sent
  {
    hide Inv, Abandon;
    FailedWrite(s, n, code);
    AllAreTold(s.(outstanding := None, error := Some(code), wire := s.wire + s.ring.bytes[..n]), code);
    assert Told(s.pending, SendFailed(code)) ==
           seq(|s.pending|, i requires 0 <= i < |s.pending| => SendCompletion(s.pending[i].call, SendFailed(code)));
  }

  lemma FailedWrite(s: Sender, n: nat, code: int)
    requires Inv(s) && Enabled(s, Broken(n, code))
    ensures n <= |s.ring.bytes|
    ensures Next(s, Broken(n, code)) ==
            Abandon(s.(outstanding := None, error := Some(code), wire := s.wire + s.ring.bytes[..n]), code)
  {
    hide InOrder, StreamOk, CompletedOnce, Abandon;
  }

  // ----- what a completed write lets out -----

  /** The longest beginning of the pending sends whose frames fit into the free space */
  ghost predicate LongestFitting(pending: seq<PendingSend>, k: nat, free: int) {
    && k <= |pending| && |Frames(PendingMessages(pending[..k]))| <= free
    && (k < |pending| ==> |Frames(PendingMessages(pending[..k + 1]))| > free)
  }

  lemma FramesFirst(pending: seq<PendingSend>, k: nat)
    requires pending != [] && k < |pending|
    ensures Frames(PendingMessages(pending[..k + 1])) ==
            Frame(pending[0].msg) + Frames(PendingMessages(pending[1..][..k]))
  {
    var ms := PendingMessages(pending[..k + 1]);
    assert ms[1..] == PendingMessages(pending[1..][..k]);
  }

  /** `s'` is `s` with the first `k` pending sends let out. */
  ghost predicate LetsOut(s: Sender, s': Sender, k: nat)
    requires s.ring.Valid()
  {
    && k <= |s.pending| && s'.pending == s.pending[k..]
    && s'.ring == s.ring.(bytes := s.ring.bytes + Frames(PendingMessages(s.pending[..k])))
    && s'.log == s.log.(sent := s.log.sent + CallsOf(s.pending[..k]),
                        completions := s.log.completions + Told(s.pending[..k], Sent))
    && s'.running == (s.running || k > 0)
    && s'.outstanding ==
         (if s.running || k == 0 then s.outstanding
          else Some(Min(|s.ring.bytes + Frame(s.pending[0].msg)|, s.ring.capacity + 1 - s.ring.start)))
    && s'.error == s.error && s'.wire == s.wire
  }

  lemma {:induction false} RetryLetsOut(s: Sender) returns (k: nat)
    requires s.ring.Valid()
    ensures LongestFitting(s.pending, k, s.ring.Free()) && LetsOut(s, Retry(s), k)
    decreases |s.pending|
  {
    hide Frames, SendFirst, LetsOut, LongestFitting, CanSend;
    if s.pending == [] || !CanSend(s.ring, |s.pending[0].msg|) {
      k := 0;
      NothingLetOut(s);
    } else {
      var k1 := RetryLetsOut(SendFirst(s));
      k := k1 + 1;
      FirstLetOut(s, Retry(s), k1);
      OneMoreFits(s, k1);
    }
  }

  lemma NothingLetOut(s: Sender)
    requires s.ring.Valid() && (s.pending == [] || !CanSend(s.ring, |s.pending[0].msg|))
    ensures LongestFitting(s.pending, 0, s.ring.Free()) && LetsOut(s, s, 0)
  {
    hide Frames;
    NoFrames();
    if s.pending != [] {
      FramesFirst(s.pending, 0);
      assert s.pending[1..][..0] == [];
    }
  }

  lemma OneMoreFits(s: Sender, k: nat)
    requires s.ring.Valid() && s.pending != [] && CanSend(s.ring, |s.pending[0].msg|)
    requires LongestFitting(s.pending[1..], k, SendFirst(s).ring.Free())
    ensures LongestFitting(s.pending, k + 1, s.ring.Free())
  {
    hide Frames;
    FramesFirst(s.pending, k);
    if k + 1 < |s.pending| {
      FramesFirst(s.pending, k + 1);
    }
  }

  lemma FirstLetOut(s: Sender, s': Sender, k: nat)
    requires s.ring.Valid() && s.pending != [] && CanSend(s.ring, |s.pending[0].msg|)
    requires LetsOut(SendFirst(s), s', k)
    ensures LetsOut(s, s', k + 1)
  {
    hide Frames, Told, CallsOf;
    var first, rest := s.pending[..k + 1], s.pending[1..][..k];
    assert first[0] == s.pending[0] && first[1..] == rest;
    assert s.pending[1..][k..] == s.pending[k + 1..];
    FramesFirst(s.pending, k);
    ToldFirst(first, Sent);
    CallsFirst(first);
    ConcatAssociative(s.ring.bytes, Frame(s.pending[0].msg), Frames(PendingMessages(rest)));
    ConcatAssociative(s.log.completions, [SendCompletion(s.pending[0].call, Sent)], Told(rest, Sent));
    ConcatAssociative(s.log.sent, [s.pending[0].call], CallsOf(rest));
  }

  lemma NoFrames()
    ensures Frames(PendingMessages([])) == []
  {
  }

  /** A completed write gives the peer exactly its bytes, and lets as many pending sends out, in
      order, as fit into the space that is free then: their handlers are called with success. A
      write with all bytes in one piece is under way again if there are any. */
  lemma WrittenLetsOut(s: Sender, n: nat) returns (k: nat)
    requires Inv(s) && Enabled(s, Written(n))
    ensures n <= |s.ring.bytes| && LongestFitting(s.pending, k, s.ring.capacity - |s.ring.bytes| + n)
    ensures var s' := Next(s, Written(n));
            && s'.error == s.error && s'.wire == s.wire + s.ring.bytes[..n]
            && s'.ring.bytes == s.ring.bytes[n..] + Frames(PendingMessages(s.pending[..k]))
            && s'.pending == s.pending[k..]
            && s'.log.completions == s.log.completions + Told(s.pending[..k], Sent)
            && s'.log.sent == s.log.sent + CallsOf(s.pending[..k])
            && s'.log.calls == s.log.calls && s'.log.dropped == s.log.dropped
            && s'.outstanding ==
                 var at := if s.ring.start + n <= s.ring.capacity then s.ring.start + n
                           else s.ring.start + n - s.ring.capacity - 1;
                 if s.ring.bytes[n..] != [] then Some(Min(|s.ring.bytes| - n, s.ring.capacity + 1 - at))
                 else if k > 0 then Some(Min(|Frame(s.pending[0].msg)|, s.ring.capacity + 1 - at))
                 else None
  {
    hide InOrder, StreamOk, CompletedOnce, Frames, Retry, LongestFitting;
    var s1 := CommitWritten(s, n);
    var s2 := if s1.ring.bytes != [] then SendSome(s1) else s1;
    k := RetryLetsOut(s2);
  }
}
