/** The receiving half of a MessageTransport as a state machine over abstract values. Class
    MessageTransport is proved to take exactly these steps. */
module ReceiveSide {
  import opened Common
  import opened SizeField
  import opened RingBuffer
  import opened Framing

  datatype Failure = DeserializeMsgFailed | TransportFailure(code: int)

  datatype Outcome = Success(size: nat) | BufferTooSmall(size: nat) | Canceled | Failed(failure: Failure)

  /** A receive operation: its handler, numbered in call order, and the room in its buffer. */
  datatype Awaiting = Awaiting(id: nat, room: nat)

  /** The call of a handler, with the bytes that were put into the operation's buffer. */
  datatype Completion = Completion(op: Awaiting, outcome: Outcome, data: seq<byte>)

  /** Received bytes not yet delivered: the ring, and the held bytes of a size field with
      the field's value once it is complete. */
  datatype Intake = Intake(ring: Ring, header: seq<byte>, sizeField: Option<nat>)

  /** What has happened: the number of ReceiveAsync calls, every byte the transport put into
      the ring, the frames taken off and the handler calls. No step depends on it. */
  datatype Log = Log(calls: nat, received: seq<byte>, consumed: seq<WireFrame>, completions: seq<Completion>)

  datatype Receiver = Receiver(
    intake: Intake,
    awaiting: Option<Awaiting>,  // the pending receive operation
    running: bool,               // receive_from_transport_running_
    outstanding: Option<nat>,    // the length of the transport's unfinished read
    started: bool,               // whether any read was ever issued
    error: Option<Failure>,      // last_rx_error_
    log: Log
  )

  function Init(capacity: nat): Receiver {
    Receiver(Intake(Ring(capacity, 0, []), [], None), None, false, None, false, None, Log(0, [], [], []))
  }

  // ----- scanning for the size field -----

  function Undelivered(i: Intake): seq<byte> {
    i.header + i.ring.bytes
  }

  function Hold(i: Intake, n: nat): (i': Intake)
    requires i.ring.Valid() && |i.header| <= n <= |i.header| + |i.ring.bytes|
    ensures i'.ring.Valid() && i'.ring.capacity == i.ring.capacity
    ensures Undelivered(i') == Undelivered(i)
    ensures i'.ring.FirstWriteLength() >= i.ring.FirstWriteLength()
  {
    i.(header := Undelivered(i)[..n], ring := i.ring.Drop(n - |i.header|))
  }

  /** The held header is no, or no acceptable, size field. */
  predicate Rejected(i: Intake) {
    match i.sizeField
    case None => |i.header| >= MAX_FIELD_LENGTH
    case Some(size) => size > i.ring.capacity
  }

  ghost predicate IntakeOk(i: Intake) {
    && i.ring.Valid() && i.ring.capacity > 0
    && match i.sizeField
       case None => EndByte(i.header) == |i.header| <= MAX_FIELD_LENGTH
       case Some(size) => ScanHeader(i.header) == Field(size, |i.header|)
  }

  /** TryGetReceivedSizeField: bytes move from the ring to the held header until the size
      field is complete, or cannot be one, or the ring is empty. */
  function Acquire(i: Intake): (i': Intake)
    requires IntakeOk(i) && !Rejected(i)
    ensures i'.ring.Valid() && i'.ring.capacity == i.ring.capacity
    ensures Undelivered(i') == Undelivered(i)
    ensures i'.ring.FirstWriteLength() >= i.ring.FirstWriteLength()
  {
    if i.sizeField.Some? then i
    else
      EndByteExtends(i.header, i.ring.bytes);
      match ScanHeader(Undelivered(i))
      case Field(size, length) => Hold(i, length).(sizeField := Some(size))
      case Malformed => Hold(i, MAX_FIELD_LENGTH)
      case Incomplete => Hold(i, |Undelivered(i)|)
  }

  // ----- steps -----

  function Complete(s: Receiver, outcome: Outcome, data: seq<byte>): Receiver
    requires s.awaiting.Some?
  {
    var c := Completion(s.awaiting.value, outcome, data);
    s.(awaiting := None, log := s.log.(completions := s.log.completions + [c]))
  }

  /** HandleReceiveError */
  function Fail(s: Receiver, failure: Failure): Receiver {
    var s' := s.(error := Some(failure));
    if s.awaiting.None? then s' else Complete(s', Outcome.Failed(failure), [])
  }

  /** The state with a new intake, after HandleReceiveError if its header is rejected. */
  function Checked(s: Receiver, i: Intake): (s': Receiver)
    ensures s'.intake == i
    ensures s'.running == s.running && s'.outstanding == s.outstanding && s'.started == s.started
    ensures s'.awaiting == if Rejected(i) then None else s.awaiting
  {
    if Rejected(i) then Fail(s.(intake := i), DeserializeMsgFailed) else s.(intake := i)
  }

  /** TryGetReceivedSizeField */
  function Scan(s: Receiver): Receiver
    requires IntakeOk(s.intake) && !Rejected(s.intake)
  {
    Checked(s, Acquire(s.intake))
  }

  predicate Deliverable(i: Intake) {
    i.sizeField.Some? && i.sizeField.value <= |i.ring.bytes|
  }

  /** TryDeliveringPendingReceive */
  function TryDeliver(s: Receiver): (s': Receiver)
    requires IntakeOk(s.intake) && (s.awaiting.Some? ==> !Rejected(s.intake))
    ensures s'.intake.ring.Valid() && s'.intake.ring.capacity == s.intake.ring.capacity
    ensures s'.intake.ring.FirstWriteLength() >= s.intake.ring.FirstWriteLength()
    ensures s'.running == s.running && s'.outstanding == s.outstanding && s'.started == s.started
  {
    if s.awaiting.None? then s
    else
      var s' := Scan(s);
      if Deliverable(s'.intake) then Deliver(s') else s'
  }

  function Deliver(s: Receiver): (s': Receiver)
    requires s.awaiting.Some? && s.intake.ring.Valid() && Deliverable(s.intake)
    ensures s'.intake.ring.Valid() && s'.intake.ring.capacity == s.intake.ring.capacity
    ensures s'.intake.ring.FirstWriteLength() >= s.intake.ring.FirstWriteLength()
  {
    FirstPiecesStable(s.intake.ring, [], s.intake.sizeField.value);
    var Intake(ring, header, sizeField) := s.intake;
    var size := sizeField.value;
    var payload := ring.bytes[..size];
    var n := Min(size, s.awaiting.value.room);
    var outcome := if n < size then BufferTooSmall(size) else Success(size);
    var s' := Complete(s, outcome, payload[..n]);
    s'.(intake := Intake(ring.Drop(size), [], None),
        log := s'.log.(consumed := s.log.consumed + [WireFrame(header, payload)]))
  }

  /** ReceiveSomeBytesFromTransport */
  function ReadMore(s: Receiver): Receiver
    requires s.intake.ring.Valid()
  {
    if s.running then s
    else s.(running := true, started := true, outstanding := Some(s.intake.ring.FirstWriteLength()))
  }

  function ReceiveAsync(s: Receiver, room: nat): Receiver
    requires Core(s) && s.awaiting.None?
  {
    var s' := s.(awaiting := Some(Awaiting(s.log.calls, room)), log := s.log.(calls := s.log.calls + 1));
    if s.error.Some? then Complete(s', Outcome.Failed(s.error.value), [])
    else ReadMore(TryDeliver(s'))
  }

  function CancelReceive(s: Receiver): Receiver {
    if s.awaiting.None? then s else Complete(s, Canceled, [])
  }

  function Commit(s: Receiver, chunk: seq<byte>): Receiver
    requires s.intake.ring.Valid() && |chunk| <= s.intake.ring.Free()
  {
    s.(intake := s.intake.(ring := s.intake.ring.Append(chunk)),
       log := s.log.(received := s.log.received + chunk),
       running := false, outstanding := None)
  }

  /** The transport's read finished with `chunk` put into the ring's free piece. */
  function ReadCompleted(s: Receiver, chunk: seq<byte>): Receiver
    requires Core(s) && |chunk| <= s.intake.ring.Free()
  {
    var s' := TryDeliver(Commit(s, chunk));
    if s'.intake.ring.Free() > 0 then ReadMore(s') else s'
  }

  function ReadFailed(s: Receiver, failure: Failure): Receiver {
    Fail(s.(outstanding := None), failure)
  }

  // ----- invariants -----

  /** The stream starts with something no message of acceptable size starts with. */
  ghost predicate BadStream(stream: seq<byte>, capacity: nat) {
    var h := ScanHeader(stream);
    h.Malformed? || (h.Field? && h.size > capacity)
  }

  /** A handler call that hands over `payload`. */
  ghost predicate Delivers(c: Completion, payload: Message) {
    && c.data == payload[..Min(|payload|, c.op.room)]
    && c.outcome == if c.op.room < |payload| then BufferTooSmall(|payload|) else Success(|payload|)
  }

  predicate IsDelivery(c: Completion) {
    c.outcome.Success? || c.outcome.BufferTooSmall?
  }

  function Deliveries(cs: seq<Completion>): seq<Completion> {
    if cs == [] then []
    else
      var c := cs[|cs| - 1];
      Deliveries(cs[..|cs| - 1]) + (if IsDelivery(c) then [c] else [])
  }

  /** Every frame consumed was handed over once, in order and byte-exact. */
  ghost predicate DeliveredExactly(log: Log) {
    && |Deliveries(log.completions)| == |log.consumed|
    && forall i :: 0 <= i < |log.consumed| ==> Delivers(Deliveries(log.completions)[i], log.consumed[i].payload)
  }

  /** Handlers 0, 1, 2, ... are called once each, in order; at most the last call waits. */
  ghost predicate CompletedOnce(log: Log, awaiting: Option<Awaiting>) {
    && (forall i :: 0 <= i < |log.completions| ==> log.completions[i].op.id == i)
    && match awaiting
       case None => log.calls == |log.completions|
       case Some(op) => log.calls == |log.completions| + 1 && op.id == |log.completions|
  }

  ghost predicate LogOk(log: Log, undelivered: seq<byte>, capacity: nat, awaiting: Option<Awaiting>) {
    && log.received == Raw(log.consumed) + undelivered
    && AllFramed(log.consumed, capacity)
    && CompletedOnce(log, awaiting)
    && DeliveredExactly(log)
  }

  ghost predicate Logged(s: Receiver) {
    LogOk(s.log, Undelivered(s.intake), s.intake.ring.capacity, s.awaiting)
  }

  /** Without an error, the held header can still become, or already is, an acceptable size
      field. With one, nobody waits; and a framing error is the stream's fault. */
  ghost predicate ErrorOk(s: Receiver) {
    match s.error
    case None => !Rejected(s.intake)
    case Some(e) =>
      s.awaiting.None? && (e.DeserializeMsgFailed? ==> BadStream(Undelivered(s.intake), s.intake.ring.capacity))
  }

  /** What every single operation of the source keeps, also within a step. */
  ghost predicate Core(s: Receiver) {
    IntakeOk(s.intake) && ErrorOk(s) && Logged(s)
  }

  /** A pending receive has been given everything there is to give. */
  ghost predicate NothingToDeliver(s: Receiver) {
    && s.intake.sizeField != Some(0)
    && (s.awaiting.Some? ==>
          if s.intake.sizeField.None? then s.intake.ring.bytes == []
          else |s.intake.ring.bytes| < s.intake.sizeField.value)
  }

  /** A read that is under way fits the ring. Without an error the flag tells the truth and, once
      started, a read is under way unless the ring is full; a pending receive always has one. */
  ghost predicate ReadsOk(s: Receiver)
    requires s.intake.ring.Valid()
  {
    && (s.outstanding.Some? ==> s.running && s.outstanding.value <= s.intake.ring.FirstWriteLength())
    && (s.error.None? && s.running ==> s.outstanding.Some?)
    && (s.error.None? && s.started && !s.running ==> s.intake.ring.Free() == 0)
    && (s.running ==> s.started)
    && (s.awaiting.Some? ==> s.outstanding.Some?)
  }

  ghost predicate Inv(s: Receiver) {
    Core(s) && NothingToDeliver(s) && ReadsOk(s)
  }

  // ----- preservation -----

  lemma HeldHeader(stream: seq<byte>, n: nat)
    requires n <= |stream|
    requires match ScanHeader(stream)
             case Field(_, length) => n == length
             case Malformed => n == MAX_FIELD_LENGTH
             case Incomplete => n == |stream|
    ensures ScanHeader(stream).Field? ==> ScanHeader(stream[..n]) == ScanHeader(stream)
    ensures !ScanHeader(stream).Field? ==> EndByte(stream[..n]) == n
  {
    ScanExtends(stream, []);
    EndByteExtends(stream[..n], stream[n..]);
    assert stream[..n] + stream[n..] == stream;
  }

  lemma AcquireOk(i: Intake)
    requires IntakeOk(i) && !Rejected(i)
    ensures var i' := Acquire(i);
            && IntakeOk(i')
            && (Rejected(i') ==> BadStream(Undelivered(i'), i'.ring.capacity))
            && (!Rejected(i') && i'.sizeField.None? ==> i'.ring.bytes == [])
            && (i.sizeField.None? ==> i'.ring.Free() > 0)
  {
    if i.sizeField.None? {
      var stream := Undelivered(i);
      EndByteExtends(i.header, i.ring.bytes);
      match ScanHeader(stream)
      case Field(size, length) => HeldHeader(stream, length);
      case Malformed => HeldHeader(stream, MAX_FIELD_LENGTH);
      case Incomplete => HeldHeader(stream, |stream|);
    }
  }

  /** Scanning byte by byte comes to the same result. */
  lemma AcquireByBytes(i: Intake, n: nat)
    requires IntakeOk(i) && !Rejected(i) && i.sizeField.None?
    requires |i.header| <= n <= |Undelivered(i)| && n <= MAX_FIELD_LENGTH
    requires n > |i.header| ==> EndByte(Undelivered(i)[..n - 1]) == n - 1
    requires Decode(Undelivered(i)[..n]).Some? || n == MAX_FIELD_LENGTH || n == |Undelivered(i)|
    ensures Acquire(i) == Hold(i, n).(sizeField := Decode(Undelivered(i)[..n]))
  {
    hide DecodeFrom, EndByte;
    var stream := Undelivered(i);
    var taken := stream[..n];
    DecodeSome(0, taken);
    PrefixCompletes(taken, stream);
    EndByteExtends(taken, stream[n..]);
    EndByteExtends(i.header, i.ring.bytes);
    if n > |i.header| {
      PrefixCompletes(taken[..n - 1], taken);
      EndByteExtends(taken[..n - 1], taken[n - 1..]);
      assert taken[..n - 1] == stream[..n - 1];
    } else {
      assert taken == i.header;
    }
    if EndByte(taken) < n {
      assert stream[..EndByte(stream) + 1] == taken;
    }
  }

  lemma DeliveriesAppend(cs: seq<Completion>, c: Completion)
    ensures Deliveries(cs + [c]) == Deliveries(cs) + (if IsDelivery(c) then [c] else [])
  {
    assert (cs + [c])[..|cs|] == cs;
  }

  /** Handing over an outcome without a message. */
  lemma CompleteKeepsLog(s: Receiver, outcome: Outcome)
    requires Logged(s) && s.awaiting.Some? && !outcome.Success? && !outcome.BufferTooSmall?
    ensures Logged(Complete(s, outcome, []))
  {
    DeliveriesAppend(s.log.completions, Completion(s.awaiting.value, outcome, []));
  }

  lemma FailKeepsCore(s: Receiver, failure: Failure)
    requires IntakeOk(s.intake) && Logged(s)
    requires failure == DeserializeMsgFailed ==> BadStream(Undelivered(s.intake), s.intake.ring.capacity)
    ensures Core(Fail(s, failure))
  {
    if s.awaiting.Some? {
      CompleteKeepsLog(s.(error := Some(failure)), Outcome.Failed(failure));
    }
  }

  lemma DeliverKeepsStream(s: Receiver)
    requires s.intake.ring.Valid() && s.awaiting.Some? && Deliverable(s.intake)
    requires s.log.received == Raw(s.log.consumed) + Undelivered(s.intake)
    ensures var s' := Deliver(s); s'.log.received == Raw(s'.log.consumed) + Undelivered(s'.intake)
  {
    hide Raw, Payloads;
    var header, bytes := s.intake.header, s.intake.ring.bytes;
    var payload, rest := bytes[..s.intake.sizeField.value], bytes[s.intake.sizeField.value..];
    var raw := Raw(s.log.consumed);
    RawAppend(s.log.consumed, WireFrame(header, payload));
    assert bytes == payload + rest;
    assert [] + rest == rest;
    ConcatAssociative(header, payload, rest);
    ConcatAssociative(raw, header, payload);
    ConcatAssociative(raw, header + payload, rest);
  }

  lemma DeliverKeepsLog(s: Receiver)
    requires IntakeOk(s.intake) && !Rejected(s.intake) && Logged(s) && s.awaiting.Some? && Deliverable(s.intake)
    ensures Logged(Deliver(s))
  {
    hide Raw, ScanHeader, EndByte;
    var s' := Deliver(s);
    DeliverKeepsStream(s);
    DeliveriesAppend(s.log.completions, s'.log.completions[|s.log.completions|]);
  }

  lemma DeliverKeepsCore(s: Receiver)
    requires IntakeOk(s.intake) && !Rejected(s.intake) && s.error.None?
    requires Logged(s) && s.awaiting.Some? && Deliverable(s.intake)
    ensures Core(Deliver(s)) && NothingToDeliver(Deliver(s))
  {
    hide LogOk, ScanHeader;
    DeliverKeepsLog(s);
  }

  lemma TryDeliverKeepsCore(s: Receiver)
    requires Core(s) && s.intake.sizeField != Some(0)
    ensures Core(TryDeliver(s)) && NothingToDeliver(TryDeliver(s))
  {
    hide LogOk, Acquire, ScanHeader, EndByte, Deliver;
    if s.awaiting.Some? {
      AcquireOk(s.intake);
      var i := Acquire(s.intake);
      var s' := s.(intake := i);
      if Rejected(i) {
        FailKeepsCore(s', DeserializeMsgFailed);
      } else if Deliverable(i) {
        DeliverKeepsCore(s');
      }
    }
  }

  /** A pending receive finds, or makes, room in the ring. */
  lemma TryDeliverMakesRoom(s: Receiver)
    requires IntakeOk(s.intake) && !Rejected(s.intake) && s.intake.sizeField != Some(0) && s.awaiting.Some?
    ensures TryDeliver(s).intake.ring.Free() > 0
  {
    hide ScanHeader, EndByte;
    AcquireOk(s.intake);
  }

  lemma ReceiveAsyncKeepsInv(s: Receiver, room: nat)
    requires Inv(s) && s.awaiting.None?
    ensures Inv(ReceiveAsync(s, room))
  {
    var s' := s.(awaiting := Some(Awaiting(s.log.calls, room)), log := s.log.(calls := s.log.calls + 1));
    assert Logged(s');
    if s.error.Some? {
      CompleteKeepsLog(s', Outcome.Failed(s.error.value));
    } else {
      TryDeliverKeepsCore(s');
      TryDeliverMakesRoom(s');
      FirstPiecesNonEmpty(TryDeliver(s').intake.ring);
    }
  }

  lemma CancelReceiveKeepsInv(s: Receiver)
    requires Inv(s)
    ensures Inv(CancelReceive(s))
  {
    if s.awaiting.Some? {
      CompleteKeepsLog(s, Canceled);
    }
  }

  lemma CommitKeepsCore(s: Receiver, chunk: seq<byte>)
    requires Core(s) && |chunk| <= s.intake.ring.Free()
    ensures Core(Commit(s, chunk))
  {
    var i := s.intake;
    assert Undelivered(Commit(s, chunk).intake) == Undelivered(i) + chunk;
    ScanExtends(Undelivered(i), chunk);
    assert Raw(s.log.consumed) + Undelivered(i) + chunk == Raw(s.log.consumed) + (Undelivered(i) + chunk);
  }

  lemma ReadCompletedKeepsInv(s: Receiver, chunk: seq<byte>)
    requires Inv(s) && |chunk| <= s.intake.ring.Free()
    ensures Inv(ReadCompleted(s, chunk))
  {
    CommitKeepsCore(s, chunk);
    var s' := Commit(s, chunk);
    TryDeliverKeepsCore(s');
    if s.awaiting.Some? {
      TryDeliverMakesRoom(s');
    }
    FirstPiecesNonEmpty(TryDeliver(s').intake.ring);
  }

  lemma StartKeepsInv(s: Receiver)
    requires Inv(s)
    ensures Inv(ReadMore(s))
  {
  }

  lemma ReadFailedKeepsInv(s: Receiver, code: int)
    requires Inv(s)
    ensures Inv(ReadFailed(s, TransportFailure(code)))
  {
    FailKeepsCore(s.(outstanding := None), TransportFailure(code));
  }

  lemma InitInv(capacity: nat)
    requires capacity > 0
    ensures Inv(Init(capacity))
  {
  }

  // ----- runs -----

  datatype Event =
    | Start
    | Receive(room: nat)
    | Cancel
    | Data(chunk: seq<byte>)  // the outstanding read delivers these bytes
    | Broken(code: int)       // the outstanding read fails

  /** What the callers and the transport must respect: one receive at a time, and a read delivers
      no more than it asked for. */
  ghost predicate Enabled(s: Receiver, e: Event)
    requires Inv(s)
  {
    match e
    case Start => true
    case Receive(_) => s.awaiting.None?
    case Cancel => true
    case Data(chunk) => s.outstanding.Some? && |chunk| <= s.outstanding.value
    case Broken(_) => s.outstanding.Some?
  }

  /** The state after an event; events that are not enabled do not happen. */
  ghost function Next(s: Receiver, e: Event): (s': Receiver)
    requires Inv(s)
    ensures Inv(s') && s'.intake.ring.capacity == s.intake.ring.capacity
  {
    if !Enabled(s, e) then s
    else
      match e
      case Start => StartKeepsInv(s); ReadMore(s)
      case Receive(room) => ReceiveAsyncKeepsInv(s, room); ReceiveAsync(s, room)
      case Cancel => CancelReceiveKeepsInv(s); CancelReceive(s)
      case Data(chunk) => ReadCompletedKeepsInv(s, chunk); ReadCompleted(s, chunk)
      case Broken(code) => ReadFailedKeepsInv(s, code); ReadFailed(s, TransportFailure(code))
  }

  ghost function Run(s: Receiver, events: seq<Event>): (s': Receiver)
    requires Inv(s)
    ensures Inv(s') && s'.intake.ring.capacity == s.intake.ring.capacity
  {
    hide Inv, Next;
    if events == [] then s else Next(Run(s, events[..|events| - 1]), events[|events| - 1])
  }

  ghost function RunFrom(capacity: nat, events: seq<Event>): Receiver
    requires capacity > 0
  {
    InitInv(capacity);
    Run(Init(capacity), events)
  }
}
