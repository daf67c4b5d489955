/** The sending half of a MessageTransport as a state machine over abstract values. Class
    MessageTransport is proved to take exactly these steps. */
module SendSide {
  import opened Common
  import opened SizeField
  import opened RingBuffer
  import opened Framing

  /** A queued send; `call` numbers the TrySend or SendAsync call it comes from. */
  datatype PendingSend = PendingSend(tag: int, msg: Message, call: nat)

  datatype SendOutcome = Sent | SendCanceled | SendFailed(code: int)

  /** The call of a send handler. */
  datatype SendCompletion = SendCompletion(call: nat, outcome: SendOutcome)

  datatype Status = Accepted | Rejected | Withdrawn

  /** A TrySend or SendAsync call: rejected at once, or accepted and perhaps cancelled later. */
  datatype Call = Call(msg: Message, async: bool, status: Status)

  /** What has happened: the calls, the ones whose frame was written to the ring and the ones
      given up after an error, each in order, and the handler calls. No step depends on it. */
  datatype Log = Log(calls: seq<Call>, sent: seq<nat>, dropped: seq<nat>, completions: seq<SendCompletion>)

  datatype Sender = Sender(
    ring: Ring,
    running: bool,             // send_to_transport_running_
    outstanding: Option<nat>,  // the length of the transport's unfinished write
    pending: seq<PendingSend>,
    error: Option<int>,        // last_tx_error_
    wire: seq<byte>,           // history: the bytes handed to the peer
    log: Log
  )

  datatype TryResult = Returned(ok: bool) | Thrown(code: int)

  function Init(capacity: nat): Sender {
    Sender(Ring(capacity, 0, []), false, None, [], None, [], Log([], [], [], []))
  }

  // ----- steps -----

  /** The assertion in CanSend: a message that never fits must not be submitted. */
  predicate Fits(msg: Message, capacity: nat) {
    |msg| + FieldLength(|msg|) <= capacity
  }

  predicate CanSend(ring: Ring, size: nat)
    requires ring.Valid()
  {
    ring.Free() >= size + FieldLength(size)
  }

  function Record(s: Sender, msg: Message, async: bool, status: Status): Sender {
    s.(log := s.log.(calls := s.log.calls + [Call(msg, async, status)]))
  }

  function Complete(s: Sender, call: nat, outcome: SendOutcome): Sender {
    s.(log := s.log.(completions := s.log.completions + [SendCompletion(call, outcome)]))
  }

  /** SendSomeBytesToTransport */
  function SendSome(s: Sender): Sender
    requires s.ring.Valid()
  {
    if s.running then s else s.(running := true, outstanding := Some(s.ring.FirstReadLength()))
  }

  /** TrySendImpl, when the message fits */
  function Enqueue(s: Sender, msg: Message, call: nat): (s': Sender)
    requires s.ring.Valid() && CanSend(s.ring, |msg|)
    ensures s'.ring.Valid() && s'.ring.capacity == s.ring.capacity
  {
    SendSome(s.(ring := s.ring.Append(Frame(msg)), log := s.log.(sent := s.log.sent + [call])))
  }

  function TrySend(s: Sender, msg: Message): (Sender, TryResult)
    requires s.ring.Valid()
  {
    if s.error.Some? then (Record(s, msg, false, Rejected), Thrown(s.error.value))
    else if s.pending == [] && CanSend(s.ring, |msg|) then
      (Enqueue(Record(s, msg, false, Accepted), msg, |s.log.calls|), Returned(true))
    else (Record(s, msg, false, Rejected), Returned(false))
  }

  function SendAsync(s: Sender, msg: Message, tag: int): Sender
    requires s.ring.Valid()
  {
    var call := |s.log.calls|;
    if s.error.Some? then Complete(Record(s, msg, true, Rejected), call, SendFailed(s.error.value))
    else
      var s' := Record(s, msg, true, Accepted);
      if s.pending == [] && CanSend(s.ring, |msg|) then Complete(Enqueue(s', msg, call), call, Sent)
      else s'.(pending := s.pending + [PendingSend(tag, msg, call)])
  }

  /** The position of the first pending send with the given tag. */
  function FindTag(pending: seq<PendingSend>, tag: int): (i: nat)
    ensures i <= |pending|
    ensures i < |pending| ==> pending[i].tag == tag
    ensures forall k :: 0 <= k < i ==> pending[k].tag != tag
  {
    if pending == [] || pending[0].tag == tag then 0 else 1 + FindTag(pending[1..], tag)
  }

  function CancelSend(s: Sender, tag: int): (Sender, bool) {
    var i := FindTag(s.pending, tag);
    if i == |s.pending| then (s, false) else (Withdraw(s, i), true)
  }

  function Withdraw(s: Sender, i: nat): Sender
    requires i < |s.pending|
  {
    var p := s.pending[i];
    var calls := s.log.calls;
    var s' := Complete(s, p.call, SendCanceled).(pending := s.pending[..i] + s.pending[i + 1..]);
    if p.call >= |calls| then s'
    else s'.(log := s'.log.(calls := calls[p.call := calls[p.call].(status := Withdrawn)]))
  }

  /** RetrySendingPendingSends */
  function Retry(s: Sender): (s': Sender)
    requires s.ring.Valid()
    ensures s'.ring.Valid() && s'.ring.capacity == s.ring.capacity
    decreases |s.pending|
  {
    if s.pending == [] || !CanSend(s.ring, |s.pending[0].msg|) then s else Retry(SendFirst(s))
  }

  function SendFirst(s: Sender): (s': Sender)
    requires s.ring.Valid() && s.pending != [] && CanSend(s.ring, |s.pending[0].msg|)
    ensures s'.ring.Valid() && s'.ring.capacity == s.ring.capacity && s'.pending == s.pending[1..]
  {
    var p := s.pending[0];
    Complete(Enqueue(s.(pending := s.pending[1..]), p.msg, p.call), p.call, Sent)
  }

  function CommitWritten(s: Sender, n: nat): Sender
    requires s.ring.Valid() && n <= |s.ring.bytes|
  {
    s.(ring := s.ring.Drop(n), running := false, outstanding := None, wire := s.wire + s.ring.bytes[..n])
  }

  /** The transport's write finished; the peer gets the first `n` bytes. */
  function WriteCompleted(s: Sender, n: nat): Sender
    requires s.ring.Valid() && n <= |s.ring.bytes|
  {
    var s' := CommitWritten(s, n);
    Retry(if s'.ring.bytes != [] then SendSome(s') else s')
  }

  /** The transport's write failed; `n` bytes may have reached the peer all the same. */
  function WriteFailed(s: Sender, n: nat, code: int): Sender
    requires s.ring.Valid() && n <= |s.ring.bytes|
  {
    Abandon(s.(outstanding := None, error := Some(code), wire := s.wire + s.ring.bytes[..n]), code)
  }

  /** HandleSendError calls the handlers of all pending sends, in order. */
  function Abandon(s: Sender, code: int): (s': Sender)
    ensures s'.ring == s.ring
    decreases |s.pending|
  {
    if s.pending == [] then s
    else Abandon(AbandonFirst(s, code), code)
  }

  function AbandonFirst(s: Sender, code: int): Sender
    requires s.pending != []
  {
    var p := s.pending[0];
    var s' := Complete(s, p.call, SendFailed(code)).(pending := s.pending[1..]);
    s'.(log := s'.log.(dropped := s'.log.dropped + [p.call]))
  }

  // ----- invariants -----

  function CallsOf(pending: seq<PendingSend>): (ids: seq<nat>)
    ensures |ids| == |pending|
    ensures forall i :: 0 <= i < |ids| ==> ids[i] == pending[i].call
  {
    seq(|pending|, i requires 0 <= i < |pending| => pending[i].call)
  }

  /** The accepted calls that were not cancelled, in submission order. */
  function Live(calls: seq<Call>): (ids: seq<nat>)
    ensures forall i :: 0 <= i < |ids| ==> ids[i] < |calls| && calls[ids[i]].status.Accepted?
    ensures forall i, j :: 0 <= i < j < |ids| ==> ids[i] < ids[j]
  {
    if calls == [] then []
    else
      var n := |calls| - 1;
      Live(calls[..n]) + (if calls[n].status.Accepted? then [n] else [])
  }

  ghost predicate AllBelow(ids: seq<nat>, n: nat) {
    forall i :: 0 <= i < |ids| ==> ids[i] < n
  }

  ghost function MessagesOf(calls: seq<Call>, ids: seq<nat>): (ms: seq<Message>)
    requires AllBelow(ids, |calls|)
    ensures |ms| == |ids|
    ensures forall i :: 0 <= i < |ids| ==> ms[i] == calls[ids[i]].msg
  {
    seq(|ids|, i requires 0 <= i < |ids| => calls[ids[i]].msg)
  }

  ghost function LiveMessages(log: Log): seq<Message> {
    MessagesOf(log.calls, Live(log.calls))
  }

  /** Sent, given up and pending calls are exactly the live ones, in submission order. */
  ghost predicate InOrder(log: Log, pending: seq<PendingSend>) {
    && Live(log.calls) == log.sent + log.dropped + CallsOf(pending)
    && forall p <- pending :: p.call < |log.calls| && log.calls[p.call] == Call(p.msg, true, Accepted)
  }

  ghost predicate AllFit(pending: seq<PendingSend>, capacity: nat) {
    forall p <- pending :: Fits(p.msg, capacity)
  }

  /** The wire and the ring hold the frames of the sent calls; after an error the wire holds a
      part of them and nothing is pending. */
  ghost predicate StreamOk(s: Sender) {
    && AllBelow(s.log.sent, |s.log.calls|)
    && var stream := Frames(MessagesOf(s.log.calls, s.log.sent));
       if s.error.None? then s.wire + s.ring.bytes == stream && s.log.dropped == []
       else s.wire <= stream && s.pending == []
  }

  function CompletedCalls(cs: seq<SendCompletion>): (ids: seq<nat>)
    ensures |ids| == |cs|
    ensures forall i :: 0 <= i < |ids| ==> ids[i] == cs[i].call
  {
    seq(|cs|, i requires 0 <= i < |cs| => cs[i].call)
  }

  ghost predicate OutcomeOk(log: Log, c: SendCompletion) {
    c.call < |log.calls| &&
    match c.outcome
    case Sent => c.call in log.sent
    case SendCanceled => log.calls[c.call].status.Withdrawn?
    case SendFailed(_) => c.call in log.dropped || log.calls[c.call].status.Rejected?
  }

  /** Every asynchronous call is either pending or completed, once, and with the right outcome. */
  ghost predicate CompletedOnce(log: Log, pending: seq<PendingSend>) {
    var ids := CompletedCalls(log.completions) + CallsOf(pending);
    && NoDuplicates(ids)
    && (forall c: nat :: c in ids <==> c < |log.calls| && log.calls[c].async)
    && (forall i :: 0 <= i < |log.completions| ==> OutcomeOk(log, log.completions[i]))
  }

  /** Tags that are not zero identify pending sends. */
  ghost predicate TagsDistinct(pending: seq<PendingSend>) {
    forall i, j :: 0 <= i < j < |pending| ==> pending[i].tag != pending[j].tag || pending[i].tag == 0
  }

  /** A write that is under way has bytes to send, and without an error one is under way
      exactly while the ring holds bytes. */
  ghost predicate WritesOk(s: Sender)
    requires s.ring.Valid()
  {
    && (s.outstanding.Some? ==> s.running && 1 <= s.outstanding.value <= s.ring.FirstReadLength())
    && (s.error.None? ==> (s.running <==> s.outstanding.Some?) && (s.running <==> s.ring.bytes != []))
    && (s.error.Some? ==> s.outstanding.None?)
  }

  /** What every single operation of the source keeps, also within a step. */
  ghost predicate Core(s: Sender) {
    && s.ring.Valid() && WritesOk(s)
    && InOrder(s.log, s.pending) && StreamOk(s)
    && AllFit(s.pending, s.ring.capacity) && TagsDistinct(s.pending)
    && CompletedOnce(s.log, s.pending)
  }

  /** In addition, a send waits only behind bytes that are on their way out. */
  ghost predicate Inv(s: Sender) {
    Core(s) && (s.pending != [] ==> s.ring.bytes != [])
  }

  lemma InitInv(capacity: nat)
    ensures Inv(Init(capacity))
  {
    assert MessagesOf([], []) == [];
  }

  // ----- order and stream -----

  lemma LiveAppend(calls: seq<Call>, c: Call)
    ensures Live(calls + [c]) == Live(calls) + (if c.status.Accepted? then [|calls|] else [])
  {
    assert (calls + [c])[..|calls|] == calls;
  }

  lemma MessagesSame(calls: seq<Call>, calls': seq<Call>, ids: seq<nat>)
    requires AllBelow(ids, |calls|) && |calls| <= |calls'|
    requires forall i :: 0 <= i < |calls| ==> calls'[i].msg == calls[i].msg
    ensures AllBelow(ids, |calls'|) && MessagesOf(calls', ids) == MessagesOf(calls, ids)
  {
  }

  lemma MessagesAppend(calls: seq<Call>, ids: seq<nat>, id: nat)
    requires AllBelow(ids, |calls|) && id < |calls|
    ensures AllBelow(ids + [id], |calls|)
    ensures MessagesOf(calls, ids + [id]) == MessagesOf(calls, ids) + [calls[id].msg]
  {
  }

  lemma RecordKeepsStream(s: Sender, msg: Message, async: bool, status: Status)
    requires StreamOk(s)
    ensures StreamOk(Record(s, msg, async, status))
  {
    MessagesSame(s.log.calls, Record(s, msg, async, status).log.calls, s.log.sent);
  }

  lemma EnqueueKeepsStream(s: Sender, msg: Message, call: nat)
    requires s.ring.Valid() && CanSend(s.ring, |msg|) && StreamOk(s) && s.error.None?
    requires call < |s.log.calls| && s.log.calls[call].msg == msg
    ensures StreamOk(Enqueue(s, msg, call))
  {
    MessagesAppend(s.log.calls, s.log.sent, call);
    FramesAppend(MessagesOf(s.log.calls, s.log.sent), msg);
    ConcatAssociative(s.wire, s.ring.bytes, Frame(msg));
  }

  lemma EnqueueWrites(s: Sender, msg: Message, call: nat)
    requires s.ring.Valid() && CanSend(s.ring, |msg|) && WritesOk(s) && s.error.None?
    ensures WritesOk(Enqueue(s, msg, call)) && Enqueue(s, msg, call).ring.bytes != []
  {
    FirstPiecesStable(s.ring, Frame(msg), 0);
    FirstPiecesNonEmpty(s.ring.Append(Frame(msg)));
    FieldLengthFits(|msg|);
  }

  // ----- completion -----

  lemma AppendNew(ids: seq<nat>, n: nat)
    requires NoDuplicates(ids) && AllBelow(ids, n)
    ensures NoDuplicates(ids + [n])
  {
  }

  lemma IdsBelow(s: Sender)
    requires CompletedOnce(s.log, s.pending)
    ensures AllBelow(CompletedCalls(s.log.completions) + CallsOf(s.pending), |s.log.calls|)
  {
    var ids := CompletedCalls(s.log.completions) + CallsOf(s.pending);
    forall i | 0 <= i < |ids|
      ensures ids[i] < |s.log.calls|
    {
      assert ids[i] in ids;
    }
  }

  lemma PrefixMembers<T>(a: seq<T>, b: seq<T>)
    requires a <= b
    ensures forall x <- a :: x in b
  {
    PrefixCompletes(a, b);
  }

  lemma CompleteNew(s: Sender, msg: Message, status: Status, outcome: SendOutcome)
    requires CompletedOnce(s.log, s.pending) && s.pending == []
    requires match outcome
             case Sent => status.Accepted?
             case SendCanceled => false
             case SendFailed(_) => status.Rejected?
    ensures var s' := Complete(Record(s, msg, true, status), |s.log.calls|, outcome);
            CompletedOnce(s'.log.(sent := if outcome.Sent? then s.log.sent + [|s.log.calls|] else s.log.sent),
                          s'.pending)
  {
    var ids := CompletedCalls(s.log.completions) + CallsOf(s.pending);
    var n := |s.log.calls|;
    var s' := Complete(Record(s, msg, true, status), n, outcome);
    assert CompletedCalls(s'.log.completions) + CallsOf(s'.pending) == ids + [n];
    IdsBelow(s);
    AppendNew(ids, n);
  }

  lemma PendNew(s: Sender, msg: Message, tag: int)
    requires CompletedOnce(s.log, s.pending)
    ensures CompletedOnce(Record(s, msg, true, Accepted).log, s.pending + [PendingSend(tag, msg, |s.log.calls|)])
  {
    var ids := CompletedCalls(s.log.completions) + CallsOf(s.pending);
    var n := |s.log.calls|;
    var s' := Record(s, msg, true, Accepted).(pending := s.pending + [PendingSend(tag, msg, n)]);
    assert CompletedCalls(s'.log.completions) + CallsOf(s'.pending) == ids + [n];
    IdsBelow(s);
    AppendNew(ids, n);
  }

  /** Completing the first pending send moves its handler from one list to the other. */
  lemma CompleteFirst(s: Sender, outcome: SendOutcome, sent: seq<nat>, dropped: seq<nat>)
    requires CompletedOnce(s.log, s.pending) && s.pending != []
    requires s.log.sent <= sent && s.log.dropped <= dropped
    requires match outcome
             case Sent => s.pending[0].call in sent
             case SendCanceled => false
             case SendFailed(_) => s.pending[0].call in dropped
    ensures var s' := Complete(s, s.pending[0].call, outcome);
            CompletedOnce(s'.log.(sent := sent, dropped := dropped), s.pending[1..])
  {
    var ids := CompletedCalls(s.log.completions) + CallsOf(s.pending);
    var s' := Complete(s, s.pending[0].call, outcome).(pending := s.pending[1..]);
    assert CompletedCalls(s'.log.completions) + CallsOf(s'.pending) == ids;
    IdsBelow(s);
    assert ids[|s.log.completions|] == s.pending[0].call;
    PrefixMembers(s.log.sent, sent);
    PrefixMembers(s.log.dropped, dropped);
  }

  // ----- sending what is queued -----

  lemma SendFirstKeepsCore(s: Sender)
    requires Core(s) && s.error.None? && s.pending != [] && CanSend(s.ring, |s.pending[0].msg|)
    ensures Core(SendFirst(s)) && SendFirst(s).error.None? && SendFirst(s).ring.bytes != []
  {
    hide Live, Frames, InOrder, CompletedOnce;
    var p := s.pending[0];
    var popped := s.(pending := s.pending[1..]);
    PopInOrder(s.log, SendFirst(s).log, s.pending);
    EnqueueKeepsStream(popped, p.msg, p.call);
    EnqueueWrites(popped, p.msg, p.call);
    CompleteFirst(s, Sent, s.log.sent + [p.call], s.log.dropped);
  }

  lemma PopInOrder(log: Log, log': Log, pending: seq<PendingSend>)
    requires InOrder(log, pending) && pending != [] && log.dropped == []
    requires log'.calls == log.calls && log'.sent == log.sent + [pending[0].call] && log'.dropped == []
    ensures InOrder(log', pending[1..])
    ensures pending[0].call < |log.calls| && log.calls[pending[0].call].msg == pending[0].msg
  {
    hide Live;
    assert pending[0] in pending;
    CallsFirst(pending);
    ConcatAssociative(log.sent, [pending[0].call], CallsOf(pending[1..]));
    assert log.sent + [] == log.sent && log'.sent + [] == log'.sent;
    assert forall p <- pending[1..] :: p in pending;
  }

  lemma CallsFirst(pending: seq<PendingSend>)
    requires pending != []
    ensures CallsOf(pending) == [pending[0].call] + CallsOf(pending[1..])
  {
  }

  /** Afterwards the first waiting send, if any, has no room: it waits behind bytes. */
  lemma {:induction false} RetryKeepsInv(s: Sender)
    requires Core(s) && s.error.None?
    ensures Inv(Retry(s)) && Retry(s).error.None?
    decreases |s.pending|
  {
    hide Live, Frames, CompletedOnce;
    if s.pending != [] {
      assert s.pending[0] in s.pending;
      if CanSend(s.ring, |s.pending[0].msg|) {
        SendFirstKeepsCore(s);
        RetryKeepsInv(SendFirst(s));
      }
    }
  }

  lemma CommitKeepsCore(s: Sender, n: nat)
    requires Core(s) && s.error.None? && n <= |s.ring.bytes|
    ensures var s' := CommitWritten(s, n);
            Core(if s'.ring.bytes != [] then SendSome(s') else s')
  {
    hide Live, Frames, CompletedOnce;
    ConcatAssociative(s.wire, s.ring.bytes[..n], s.ring.bytes[n..]);
    assert s.ring.bytes[..n] + s.ring.bytes[n..] == s.ring.bytes;
    FirstPiecesNonEmpty(s.ring.Drop(n));
  }

  lemma WriteCompletedKeepsInv(s: Sender, n: nat)
    requires Inv(s) && s.error.None? && n <= |s.ring.bytes|
    ensures Inv(WriteCompleted(s, n)) && WriteCompleted(s, n).error.None?
  {
    hide InOrder, StreamOk, CompletedOnce;
    CommitKeepsCore(s, n);
    var s' := CommitWritten(s, n);
    RetryKeepsInv(if s'.ring.bytes != [] then SendSome(s') else s');
  }

  // ----- calls -----

  lemma RecordKeepsCore(s: Sender, msg: Message)
    requires Core(s)
    ensures Core(Record(s, msg, false, Rejected))
  {
    hide Frames, NoDuplicates;
    RecordKeepsStream(s, msg, false, Rejected);
    LiveAppend(s.log.calls, Call(msg, false, Rejected));
  }

  lemma RecordAccepted(s: Sender, msg: Message, async: bool)
    requires InOrder(s.log, s.pending) && s.pending == [] && s.log.dropped == []
    ensures var s' := Record(s, msg, async, Accepted);
            Live(s'.log.calls) == s.log.sent + [|s.log.calls|] + s.log.dropped + CallsOf(s.pending)
  {
    LiveAppend(s.log.calls, Call(msg, async, Accepted));
  }

  lemma TrySendKeepsInv(s: Sender, msg: Message)
    requires Inv(s)
    ensures Inv(TrySend(s, msg).0)
  {
    hide Live, Frames, NoDuplicates;
    if s.error.None? && s.pending == [] && CanSend(s.ring, |msg|) {
      RecordAccepted(s, msg, false);
      RecordKeepsStream(s, msg, false, Accepted);
      var s' := Record(s, msg, false, Accepted);
      EnqueueKeepsStream(s', msg, |s.log.calls|);
      EnqueueWrites(s', msg, |s.log.calls|);
    } else {
      RecordKeepsCore(s, msg);
    }
  }

  lemma SendAsyncKeepsInv(s: Sender, msg: Message, tag: int)
    requires Inv(s) && Fits(msg, s.ring.capacity)
    requires tag != 0 ==> FindTag(s.pending, tag) == |s.pending|
    ensures Inv(SendAsync(s, msg, tag))
  {
    hide Live, Frames, CompletedOnce;
    var call := |s.log.calls|;
    if s.error.Some? {
      RecordKeepsStream(s, msg, true, Rejected);
      LiveAppend(s.log.calls, Call(msg, true, Rejected));
      CompleteNew(s, msg, Rejected, SendFailed(s.error.value));
    } else if s.pending == [] && CanSend(s.ring, |msg|) {
      RecordKeepsStream(s, msg, true, Accepted);
      var s' := Record(s, msg, true, Accepted);
      RecordAccepted(s, msg, true);
      EnqueueKeepsStream(s', msg, call);
      EnqueueWrites(s', msg, call);
      CompleteNew(s, msg, Accepted, Sent);
    } else {
      PendKeepsInv(s, msg, tag);
    }
  }

  lemma PendKeepsInv(s: Sender, msg: Message, tag: int)
    requires Inv(s) && s.error.None? && Fits(msg, s.ring.capacity) && !(s.pending == [] && CanSend(s.ring, |msg|))
    requires tag != 0 ==> FindTag(s.pending, tag) == |s.pending|
    ensures Inv(SendAsync(s, msg, tag))
  {
    hide Live, Frames, CompletedOnce;
    RecordKeepsStream(s, msg, true, Accepted);
    LiveAppend(s.log.calls, Call(msg, true, Accepted));
    PendNew(s, msg, tag);
    var s' := SendAsync(s, msg, tag);
    assert CallsOf(s'.pending) == CallsOf(s.pending) + [|s.log.calls|];
  }

  // ----- cancelling -----

  lemma SamePlace(ids: seq<nat>, i: nat, j: nat)
    requires forall k, l :: 0 <= k < l < |ids| ==> ids[k] < ids[l]
    requires i < |ids| && j < |ids| && ids[i] == ids[j]
    ensures i == j
  {
  }

  lemma LiveLast(calls: seq<Call>, a: seq<nat>, b: seq<nat>)
    requires calls != [] && Live(calls) == a + [|calls| - 1] + b
    ensures b == [] && a == Live(calls[..|calls| - 1])
  {
    var n := |calls| - 1;
    LiveStep(calls);
    hide Live;
    var ids, before := Live(calls), Live(calls[..n]);
    assert ids[|a|] == n;
    assert ids == before + [n];
    SamePlace(ids, |a|, |before|);
    assert a == ids[..|a|] == before;
  }

  lemma LiveStep(calls: seq<Call>)
    requires calls != []
    ensures var n := |calls| - 1;
            Live(calls) == Live(calls[..n]) + (if calls[n].status.Accepted? then [n] else [])
  {
  }

  lemma {:induction false} LiveWithdraw(calls: seq<Call>, a: seq<nat>, c: nat, b: seq<nat>)
    requires c < |calls| && Live(calls) == a + [c] + b
    ensures Live(calls[c := calls[c].(status := Withdrawn)]) == a + b
  {
    var n := |calls| - 1;
    var calls' := calls[c := calls[c].(status := Withdrawn)];
    if c == n {
      LiveLast(calls, a, b);
      assert calls'[..n] == calls[..n];
    } else {
      assert calls'[..n] == calls[..n][c := calls[c].(status := Withdrawn)];
      if calls[n].status.Accepted? {
        LiveButLast(calls, a + [c], b);
        LiveWithdraw(calls[..n], a, c, b[..|b| - 1]);
        ConcatAssociative(a, b[..|b| - 1], [n]);
      } else {
        LiveWithdraw(calls[..n], a, c, b);
      }
    }
  }

  lemma {:induction false} LiveButLast(calls: seq<Call>, a: seq<nat>, b: seq<nat>)
    requires calls != [] && calls[|calls| - 1].status.Accepted?
    requires Live(calls) == a + b && (a != [] ==> a[|a| - 1] < |calls| - 1)
    ensures b != [] && b[|b| - 1] == |calls| - 1
    ensures b == b[..|b| - 1] + [|calls| - 1]
    ensures Live(calls[..|calls| - 1]) == a + b[..|b| - 1]
  {
    var ids := Live(calls);
    assert ids[|ids| - 1] == |calls| - 1;
    assert b == [] ==> ids == a;
    assert b != [];
    assert (a + b)[..|a + b| - 1] == a + b[..|b| - 1];
  }

  lemma MoveForward(done: seq<nat>, a: seq<nat>, c: nat, b: seq<nat>)
    requires NoDuplicates(done + (a + [c] + b))
    ensures NoDuplicates(done + [c] + (a + b))
    ensures forall x :: x in done + [c] + (a + b) <==> x in done + (a + [c] + b)
    ensures forall i :: 0 <= i < |done| ==> done[i] != c
  {
    var ids, ids' := done + (a + [c] + b), done + [c] + (a + b);
    var n := |done|;
    assert ids[n + |a|] == c;
    assert forall i :: 0 <= i < n ==> ids[i] == done[i];
    forall i | 0 <= i < |ids'|
      ensures ids'[i] == ids[if i < n then i else if i == n then n + |a| else if i <= n + |a| then i - 1 else i]
    {
    }
    forall i | 0 <= i < |ids|
      ensures ids[i] == ids'[if i < n then i else if i < n + |a| then i + 1 else if i == n + |a| then n else i]
    {
    }
  }

  lemma WithdrawKeepsCompletion(s: Sender, i: nat)
    requires CompletedOnce(s.log, s.pending) && i < |s.pending|
    requires s.pending[i].call < |s.log.calls|
    requires s.log.calls[s.pending[i].call].status.Accepted?
    ensures CompletedOnce(Withdraw(s, i).log, Withdraw(s, i).pending)
  {
    var p := s.pending[i];
    var a, b := CallsOf(s.pending[..i]), CallsOf(s.pending[i + 1..]);
    var s' := Withdraw(s, i);
    CallsCut(s.pending, i);
    assert CompletedCalls(s'.log.completions) == CompletedCalls(s.log.completions) + [p.call];
    MoveForward(CompletedCalls(s.log.completions), a, p.call, b);
    forall k | 0 <= k < |s'.log.completions|
      ensures OutcomeOk(s'.log, s'.log.completions[k])
    {
      if k < |s.log.completions| {
        assert OutcomeOk(s.log, s.log.completions[k]);
      }
    }
  }

  lemma CancelSendKeepsInv(s: Sender, tag: int)
    requires Inv(s)
    ensures Inv(CancelSend(s, tag).0)
  {
    hide Live, Frames, InOrder, CompletedOnce;
    var i := FindTag(s.pending, tag);
    if i < |s.pending| {
      WithdrawInOrder(s, i);
      WithdrawKeepsCompletion(s, i);
      MessagesSame(s.log.calls, Withdraw(s, i).log.calls, s.log.sent);
    }
  }

  lemma WithdrawInOrder(s: Sender, i: nat)
    requires InOrder(s.log, s.pending) && CompletedOnce(s.log, s.pending) && s.log.dropped == [] && i < |s.pending|
    ensures s.pending[i].call < |s.log.calls| && s.log.calls[s.pending[i].call].status.Accepted?
    ensures InOrder(Withdraw(s, i).log, Withdraw(s, i).pending)
  {
    hide Live, CompletedOnce;
    var c := s.pending[i].call;
    var a, b := CallsOf(s.pending[..i]), CallsOf(s.pending[i + 1..]);
    assert s.pending[i] in s.pending;
    CallsCut(s.pending, i);
    assert s.log.sent + [] == s.log.sent;
    ConcatAssociative(s.log.sent, a + [c], b);
    ConcatAssociative(s.log.sent, a, [c]);
    LiveWithdraw(s.log.calls, s.log.sent + a, c, b);
    ConcatAssociative(s.log.sent, a, b);
    WithdrawKeepsOthers(s, i);
  }

  lemma CallsCut(pending: seq<PendingSend>, i: nat)
    requires i < |pending|
    ensures CallsOf(pending) == CallsOf(pending[..i]) + [pending[i].call] + CallsOf(pending[i + 1..])
    ensures CallsOf(pending[..i] + pending[i + 1..]) == CallsOf(pending[..i]) + CallsOf(pending[i + 1..])
  {
  }

  /** The other pending sends are still recorded as accepted. */
  lemma WithdrawKeepsOthers(s: Sender, i: nat)
    requires InOrder(s.log, s.pending) && CompletedOnce(s.log, s.pending) && i < |s.pending|
    ensures forall p <- Withdraw(s, i).pending ::
              p.call < |s.log.calls| && Withdraw(s, i).log.calls[p.call] == Call(p.msg, true, Accepted)
  {
    hide Live, CompletedOnce;
    var s' := Withdraw(s, i);
    PendingCallsDiffer(s);
    assert forall k :: 0 <= k < |s.pending| ==> s.pending[k] in s.pending;
    forall j | 0 <= j < |s'.pending|
      ensures var p := s'.pending[j]; p.call < |s.log.calls| && s'.log.calls[p.call] == Call(p.msg, true, Accepted)
    {
      var k := if j < i then j else j + 1;
      assert s'.pending[j] == s.pending[k];
    }
  }

  lemma PendingCallsDiffer(s: Sender)
    requires CompletedOnce(s.log, s.pending)
    ensures forall i, k :: 0 <= i < |s.pending| && 0 <= k < |s.pending| && i != k ==>
              s.pending[i].call != s.pending[k].call
  {
    var ids := CompletedCalls(s.log.completions) + CallsOf(s.pending);
    var n := |s.log.completions|;
    assert forall i :: 0 <= i < |s.pending| ==> ids[n + i] == s.pending[i].call;
  }

  // ----- failing -----

  /** Everything but the stream, which an error interrupts. */
  ghost predicate Records(s: Sender) {
    InOrder(s.log, s.pending) && CompletedOnce(s.log, s.pending)
  }

  lemma AbandonFirstKeepsRecords(s: Sender, code: int)
    requires Records(s) && s.pending != []
    ensures Records(AbandonFirst(s, code))
  {
    hide Live, CompletedOnce;
    var p := s.pending[0];
    CompleteFirst(s, SendFailed(code), s.log.sent, s.log.dropped + [p.call]);
    CallsFirst(s.pending);
    ConcatAssociative(s.log.sent + s.log.dropped, [p.call], CallsOf(s.pending[1..]));
    ConcatAssociative(s.log.sent, s.log.dropped, [p.call]);
  }

  lemma {:induction false} AbandonKeepsRecords(s: Sender, code: int)
    requires Records(s)
    ensures var s' := Abandon(s, code);
            && Records(s') && s'.pending == []
            && s' == s.(pending := [], log := s.log.(dropped := s'.log.dropped, completions := s'.log.completions))
    decreases |s.pending|
  {
    hide Records;
    if s.pending != [] {
      AbandonFirstKeepsRecords(s, code);
      AbandonKeepsRecords(AbandonFirst(s, code), code);
    }
  }

  lemma WriteFailedKeepsInv(s: Sender, n: nat, code: int)
    requires Inv(s) && s.error.None? && n <= |s.ring.bytes|
    ensures Inv(WriteFailed(s, n, code))
  {
    hide Live, Frames, CompletedOnce;
    var s' := s.(outstanding := None, error := Some(code), wire := s.wire + s.ring.bytes[..n]);
    assert s.wire + s.ring.bytes[..n] <= s.wire + s.ring.bytes;
    AbandonKeepsRecords(s', code);
  }

  // ----- runs -----

  datatype Event =
    | Try(msg: Message)
    | Async(msg: Message, tag: int)
    | Cancel(tag: int)
    | Written(n: nat)            // the outstanding write transfers n bytes
    | Broken(n: nat, code: int)  // it fails, n bytes having reached the peer

  /** What the callers and the transport must respect: the assertions on message size and on
      unused tags, and that a write transfers no more than it was given. */
  ghost predicate Enabled(s: Sender, e: Event) {
    match e
    case Try(msg) => Fits(msg, s.ring.capacity)
    case Async(msg, tag) =>
      Fits(msg, s.ring.capacity) && (tag != 0 ==> FindTag(s.pending, tag) == |s.pending|)
    case Cancel(tag) => tag != 0
    case Written(n) => s.outstanding.Some? && n <= s.outstanding.value
    case Broken(n, _) => s.outstanding.Some? && n <= s.outstanding.value
  }

  /** The state after an event; events that are not enabled do not happen. */
  ghost function Next(s: Sender, e: Event): (s': Sender)
    requires Inv(s)
    ensures Inv(s') && s'.ring.capacity == s.ring.capacity
  {
    hide InOrder, StreamOk, CompletedOnce;
    if !Enabled(s, e) then s
    else
      match e
      case Try(msg) => TrySendKeepsInv(s, msg); TrySend(s, msg).0
      case Async(msg, tag) => SendAsyncKeepsInv(s, msg, tag); SendAsync(s, msg, tag)
      case Cancel(tag) => CancelSendKeepsInv(s, tag); CancelSend(s, tag).0
      case Written(n) => WriteCompletedKeepsInv(s, n); WriteCompleted(s, n)
      case Broken(n, code) => WriteFailedKeepsInv(s, n, code); WriteFailed(s, n, code)
  }

  ghost function Run(s: Sender, events: seq<Event>): (s': Sender)
    requires Inv(s)
    ensures Inv(s') && s'.ring.capacity == s.ring.capacity
  {
    hide Inv, Next;
    if events == [] then s else Next(Run(s, events[..|events| - 1]), events[|events| - 1])
  }

  ghost function RunFrom(capacity: nat, events: seq<Event>): (s: Sender)
    ensures Inv(s)
  {
    InitInv(capacity);
    Run(Init(capacity), events)
  }
}
