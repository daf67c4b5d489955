/** What holds of the receiving half over whole runs, for every chunking of the transport's
    reads and every order of calls. */
module ReceiveProperties {
  import opened Common
  import opened SizeField
  import opened RingBuffer
  import opened Framing
  import opened ReceiveSide

  // ----- framing is never lost -----

  /** A pending receive stands before an incomplete message. */
  lemma PendingIsBlocked(s: Receiver)
    requires Inv(s) && s.awaiting.Some?
    ensures Blocked(Undelivered(s.intake), s.intake.ring.capacity)
    ensures !ScanHeader(Undelivered(s.intake)).Malformed?
    ensures s.intake.sizeField.Some? <==> ScanHeader(Undelivered(s.intake)).Field?
  {
    ScanExtends(s.intake.header, s.intake.ring.bytes);
    if s.intake.sizeField.None? {
      assert Undelivered(s.intake) == s.intake.header;
    }
  }

  /** What has been delivered is what parsing the received bytes in one go gives, up to where
      the deliveries stopped; a pending receive, or a framing error, means that they stopped
      because nothing further can be delivered. Neither the chunking nor any cancellation
      shows: framing is not desynchronised and no message is lost. */
  lemma DeliveriesAreTheParse(s: Receiver)
    requires Inv(s)
    ensures Payloads(s.log.consumed) <= Parse(s.log.received, s.intake.ring.capacity)
    ensures s.awaiting.Some? || s.error == Some(DeserializeMsgFailed) ==>
              Payloads(s.log.consumed) == Parse(s.log.received, s.intake.ring.capacity)
  {
    ParseRaw(s.log.consumed, s.intake.ring.capacity, Undelivered(s.intake));
    if s.awaiting.Some? {
      PendingIsBlocked(s);
    }
  }

  /** So two transports that received the same bytes, however these were cut and whatever was
      cancelled meanwhile, have delivered the same messages once a receive is pending. */
  lemma ChunkingDoesNotMatter(s: Receiver, s': Receiver)
    requires Inv(s) && Inv(s') && s'.intake.ring.capacity == s.intake.ring.capacity
    requires s.awaiting.Some? && s'.awaiting.Some? && s'.log.received == s.log.received
    ensures Payloads(s'.log.consumed) == Payloads(s.log.consumed)
  {
    hide Inv;
    DeliveriesAreTheParse(s);
    DeliveriesAreTheParse(s');
  }

  /** The chunk that completes a message completes the pending receive with it. */
  lemma DeliveredAtOnce(s: Receiver, chunk: seq<byte>)
    requires Inv(s) && s.awaiting.Some? && Enabled(s, Data(chunk))
    requires !Blocked(Undelivered(s.intake) + chunk, s.intake.ring.capacity)
    ensures var s' := Next(s, Data(chunk));
            var cs := s'.log.completions;
            && s'.awaiting.None? && s'.error.None?
            && |cs| == |s.log.completions| + 1 && cs[|cs| - 1].op == s.awaiting.value
            && Delivers(cs[|cs| - 1], Parse(Undelivered(s.intake) + chunk, s.intake.ring.capacity)[0])
  {
    hide ScanHeader, LogOk, EndByte, Acquire, Blocked, Parse;
    var s1 := Commit(s, chunk);
    CommitKeepsCore(s, chunk);
    ConcatAssociative(s.intake.header, s.intake.ring.bytes, chunk);
    AcquiresFrame(s1.intake);
  }

  /** Once a whole message has arrived, scanning for its size leaves the message in the ring. */
  lemma AcquiresFrame(i: Intake)
    requires IntakeOk(i) && !Rejected(i) && !Blocked(Undelivered(i), i.ring.capacity)
    ensures var i' := Acquire(i);
            && !Rejected(i') && i'.sizeField.Some? && i'.sizeField.value <= |i'.ring.bytes|
            && Parse(Undelivered(i), i.ring.capacity) != []
            && Parse(Undelivered(i), i.ring.capacity)[0] == i'.ring.bytes[..i'.sizeField.value]
  {
    hide Acquire, ScanHeader, EndByte;
    AcquireOk(i);
    var Intake(ring, header, sizeField) := Acquire(i);
    assert header + [] == header;
    if sizeField.Some? {
      ScanExtends(header, ring.bytes);
      var size := sizeField.value;
      assert ring.bytes[..size] + ring.bytes[size..] == ring.bytes;
      ConcatAssociative(header, ring.bytes[..size], ring.bytes[size..]);
      SplitThree(Undelivered(i), header, ring.bytes[..size], ring.bytes[size..]);
    }
  }

  /** Data either leaves the pending receive waiting, or hands it one message, or shows a framing error. */
  lemma DataStep(s: Receiver, chunk: seq<byte>)
    requires Inv(s) && s.awaiting.Some? && Enabled(s, Data(chunk))
    ensures var s' := Next(s, Data(chunk));
            && (s'.error.None? || s'.error == Some(DeserializeMsgFailed))
            && (s'.error.None? ==>
                  |s'.log.consumed| == |s.log.consumed| + (if s'.awaiting.Some? then 0 else 1))
  {
    hide ScanHeader, EndByte, LogOk, BadStream;
    CommitKeepsCore(s, chunk);
  }

  // ----- each event, told by what the handler is told -----

  /** What becomes of a receive that waits, when `stream` is everything not yet delivered: a bad
      stream fails it; the first message of the stream, if complete, is handed to it, as much of it
      as there is room for, and taken off the stream; otherwise it goes on waiting. */
  ghost predicate Served(s: Receiver, s': Receiver, op: Awaiting, stream: seq<byte>) {
    var capacity := s.intake.ring.capacity;
    if BadStream(stream, capacity) then
      && s'.awaiting.None? && s'.error == Some(DeserializeMsgFailed) && Undelivered(s'.intake) == stream
      && s'.log.consumed == s.log.consumed
      && s'.log.completions == s.log.completions + [Completion(op, Outcome.Failed(DeserializeMsgFailed), [])]
    else if Blocked(stream, capacity) then
      && s'.awaiting == Some(op) && s'.error.None? && Undelivered(s'.intake) == stream
      && s'.log.consumed == s.log.consumed && s'.log.completions == s.log.completions
    else
      ScanHeader(stream).Field? &&
      var Field(size, length) := ScanHeader(stream);
      length + size <= |stream| &&
      var message := stream[length..length + size];
      && s'.awaiting.None? && s'.error.None? && Undelivered(s'.intake) == stream[length + size..]
      && s'.log.consumed == s.log.consumed + [WireFrame(stream[..length], message)]
      && s'.log.completions == s.log.completions +
           [if op.room < size then Completion(op, BufferTooSmall(size), message[..op.room])
            else Completion(op, Success(size), message)]
  }

  /** Nothing that a caller can notice has happened, except perhaps to the receive that waited. */
  ghost predicate OnlyTold(s: Receiver, s': Receiver, told: seq<Completion>) {
    && s'.awaiting.None? && s'.log.completions == s.log.completions + told
    && s'.log.consumed == s.log.consumed && Undelivered(s'.intake) == Undelivered(s.intake)
  }

  lemma TryDeliverServes(s: Receiver)
    requires IntakeOk(s.intake) && !Rejected(s.intake) && s.awaiting.Some? && s.error.None?
    ensures Served(s, TryDeliver(s), s.awaiting.value, Undelivered(s.intake))
    ensures TryDeliver(s).log.calls == s.log.calls && TryDeliver(s).log.received == s.log.received
  {
    hide EndByte, Acquire, BadStream, Blocked, Served;
    AcquireOk(s.intake);
    AcquiredShows(s.intake);
    ServedFrom(s, Acquire(s.intake));
  }

  /** What scanning shows of the stream */
  lemma AcquiredShows(i: Intake)
    requires IntakeOk(i) && !Rejected(i)
    ensures var i' := Acquire(i);
            var stream := Undelivered(i);
            && (Rejected(i') <==> BadStream(stream, i.ring.capacity))
            && (!Rejected(i') && i'.sizeField.Some? ==>
                  ScanHeader(stream) == Field(i'.sizeField.value, |i'.header|))
            && (!Rejected(i') && i'.sizeField.None? ==> ScanHeader(stream).Incomplete?)
  {
    hide EndByte, Acquire;
    AcquireOk(i);
    var i' := Acquire(i);
    ScanExtends(i'.header, i'.ring.bytes);
    if i'.sizeField.None? && !Rejected(i') {
      assert Undelivered(i') == i'.header;
    }
  }

  lemma ServedFrom(s: Receiver, i: Intake)
    requires i.ring.Valid() && i.ring.capacity == s.intake.ring.capacity && s.awaiting.Some? && s.error.None?
    requires Undelivered(i) == Undelivered(s.intake)
    requires Rejected(i) <==> BadStream(Undelivered(i), i.ring.capacity)
    requires !Rejected(i) && i.sizeField.Some? ==>
               ScanHeader(Undelivered(i)) == Field(i.sizeField.value, |i.header|)
    requires !Rejected(i) && i.sizeField.None? ==> ScanHeader(Undelivered(i)).Incomplete?
    ensures var s1 := Checked(s, i);
            Served(s, if Rejected(i) then s1 else if Deliverable(i) then Deliver(s1) else s1,
                   s.awaiting.value, Undelivered(i))
  {
    hide ScanHeader, BadStream, Deliver, Undelivered;
    if !Rejected(i) && Deliverable(i) {
      DeliverTells(s.(intake := i));
    } else if !Rejected(i) && i.sizeField.Some? {
      UndeliveredLength(i);
    }
  }

  lemma UndeliveredLength(i: Intake)
    ensures |Undelivered(i)| == |i.header| + |i.ring.bytes|
  {
  }

  /** Delivering takes the header and the message off the stream. */
  lemma DeliverTells(s: Receiver)
    requires s.awaiting.Some? && s.intake.ring.Valid() && Deliverable(s.intake)
    ensures var s' := Deliver(s);
            var op, size, length := s.awaiting.value, s.intake.sizeField.value, |s.intake.header|;
            var stream := Undelivered(s.intake);
            && |stream| == length + |s.intake.ring.bytes|
            && s'.awaiting.None? && s'.error == s.error && Undelivered(s'.intake) == stream[length + size..]
            && s'.log.consumed ==
                 s.log.consumed + [WireFrame(stream[..length], stream[length..length + size])]
            && s'.log.completions == s.log.completions +
                 [if op.room < size then Completion(op, BufferTooSmall(size), stream[length..length + size][..op.room])
                  else Completion(op, Success(size), stream[length..length + size])]
  {
    var ring, header := s.intake.ring, s.intake.header;
    var size, length, stream := s.intake.sizeField.value, |header|, Undelivered(s.intake);
    assert stream[..length] == header && stream[length..length + size] == ring.bytes[..size];
    assert [] + ring.bytes[size..] == stream[length + size..];
    var payload, room := ring.bytes[..size], s.awaiting.value.room;
    assert payload[..size] == payload && payload[..Min(size, room)] == if room < size then payload[..room] else payload;
  }

  /** What every event does, as far as callers can tell */
  lemma NextIsTold(s: Receiver, e: Event)
    requires Inv(s) && Enabled(s, e)
    ensures var s' := Next(s, e);
            && s'.log.calls == s.log.calls + (if e.Receive? then 1 else 0)
            && s'.log.received == s.log.received + (if e.Data? then e.chunk else [])
            && match e
               case Start =>
                 s'.awaiting == s.awaiting && s'.error == s.error && Undelivered(s'.intake) == Undelivered(s.intake) &&
                 s'.log == s.log
               case Cancel =>
                 && s'.error == s.error
                 && OnlyTold(s, s', if s.awaiting.None? then [] else [Completion(s.awaiting.value, Canceled, [])])
               case Broken(code) =>
                 var failure := TransportFailure(code);
                 && s'.error == Some(failure) && s'.outstanding.None?
                 && OnlyTold(s, s', if s.awaiting.None? then []
                                    else [Completion(s.awaiting.value, Outcome.Failed(failure), [])])
               case Receive(room) =>
                 var op := Awaiting(s.log.calls, room);
                 if s.error.None? then Served(s, s', op, Undelivered(s.intake))
                 else
                   s'.error == s.error &&
                   OnlyTold(s, s', [Completion(op, Outcome.Failed(s.error.value), [])])
               case Data(chunk) =>
                 var stream := Undelivered(s.intake) + chunk;
                 if s.awaiting.Some? then Served(s, s', s.awaiting.value, stream)
                 else
                   s'.awaiting.None? && s'.error == s.error && Undelivered(s'.intake) == stream &&
                   s'.log.consumed == s.log.consumed && s'.log.completions == s.log.completions
  {
    hide ScanHeader, EndByte, LogOk, BadStream, Acquire, TryDeliver, Blocked;
    match e
    case Receive(room) =>
      var op := Awaiting(s.log.calls, room);
      if s.error.None? {
        TryDeliverServes(s.(awaiting := Some(op), log := s.log.(calls := s.log.calls + 1)));
      }
    case Data(chunk) =>
      CommitKeepsCore(s, chunk);
      ConcatAssociative(s.intake.header, s.intake.ring.bytes, chunk);
      if s.awaiting.Some? {
        TryDeliverServes(Commit(s, chunk));
      } else {
        IdleTryDeliver(Commit(s, chunk));
      }
    case _ =>
  }

  lemma IdleTryDeliver(s: Receiver)
    requires IntakeOk(s.intake) && s.awaiting.None?
    ensures TryDeliver(s) == s
  {
  }

  /** A waiting receive that ends without a message is told why, once, and nothing is put into its
      buffer: that it was cancelled exactly if it was, otherwise the error that is kept from then on,
      which is the transport's own or that of a bad stream. */
  lemma EndedReceiveIsTold(s: Receiver, e: Event) returns (outcome: Outcome)
    requires Inv(s) && (s.awaiting.Some? || (e.Receive? && s.error.None?))
    requires Next(s, e).awaiting.None? && Next(s, e).log.consumed == s.log.consumed
    ensures var s' := Next(s, e);
            var op := if s.awaiting.None? then Awaiting(s.log.calls, e.room) else s.awaiting.value;
            && s'.log.completions == s.log.completions + [Completion(op, outcome, [])]
            && (outcome.Canceled? <==> e.Cancel?)
            && (!e.Cancel? ==> s'.error.Some? && outcome == Outcome.Failed(s'.error.value))
            && (e.Broken? ==> s'.error == Some(TransportFailure(e.code)))
            && (e.Data? || e.Receive? ==>
                  && s'.error == Some(DeserializeMsgFailed)
                  && BadStream(Undelivered(s'.intake), s.intake.ring.capacity))
  {
    hide Inv, Next, Enabled, BadStream, Blocked, Undelivered, ScanHeader;
    EndingIsEnabled(s, e);
    NextIsTold(s, e);
    outcome := if e.Cancel? then Canceled else Outcome.Failed(Next(s, e).error.value);
  }

  lemma EndingIsEnabled(s: Receiver, e: Event)
    requires Inv(s) && (s.awaiting.Some? || (e.Receive? && s.error.None?)) && Next(s, e).awaiting.None?
    ensures Enabled(s, e) && !e.Start? && (e.Receive? ==> s.awaiting.None? && s.error.None?)
  {
    hide ScanHeader, EndByte, LogOk, BadStream, Acquire, TryDeliver;
  }

  /** A read that is issued asks for all of the free space that lies in one piece. */
  lemma ReadsAskForAll(s: Receiver, e: Event)
    requires Inv(s) && Enabled(s, e)
    ensures var s' := Next(s, e);
            s'.outstanding ==
            match e
            case Cancel => s.outstanding
            case Broken(_) => None
            case Data(_) => if s'.intake.ring.Free() > 0 then Some(s'.intake.ring.FirstWriteLength()) else None
            case Start => if s.running then s.outstanding else Some(s'.intake.ring.FirstWriteLength())
            case Receive(_) =>
              if s.running || s.error.Some? then s.outstanding else Some(s'.intake.ring.FirstWriteLength())
  {
    hide ScanHeader, EndByte, LogOk, BadStream, Acquire, TryDeliver;
    if e.Data? {
      CommitKeepsCore(s, e.chunk);
    }
  }

  // ----- errors are final -----

  lemma NextAfterError(s: Receiver, e: Event)
    requires Inv(s) && s.error.Some?
    ensures var s' := Next(s, e);
            && s'.error.Some? && s'.log.consumed == s.log.consumed
            && Deliveries(s'.log.completions) == Deliveries(s.log.completions)
  {
    hide ScanHeader, EndByte, LogOk, Acquire, BadStream;
    match e
    case Receive(room) =>
      DeliveriesAppend(s.log.completions, Completion(Awaiting(s.log.calls, room), Outcome.Failed(s.error.value), []));
    case _ =>
  }

  /** After any receive error no message is delivered and no handler waits, whatever follows. */
  lemma {:induction false} ErrorLatch(s: Receiver, events: seq<Event>)
    requires Inv(s) && s.error.Some?
    ensures var s' := Run(s, events);
            && s'.error.Some? && s'.awaiting.None? && s'.log.consumed == s.log.consumed
            && Deliveries(s'.log.completions) == Deliveries(s.log.completions)
  {
    hide Next;
    if events != [] {
      ErrorLatch(s, events[..|events| - 1]);
      NextAfterError(Run(s, events[..|events| - 1]), events[|events| - 1]);
    }
  }

  // ----- no wake-up is lost -----

  /** A Start that finds the ring full and no read under way was the last to issue a read, which
      asks for nothing and has not been answered yet. */
  ghost predicate EmptyRead(capacity: nat, events: seq<Event>)
    requires capacity > 0
  {
    events != [] &&
    var before, e := events[..|events| - 1], events[|events| - 1];
    var s := RunFrom(capacity, before);
    if e.Start? && !s.running && s.intake.ring.Free() == 0 then true
    else if (e.Data? || e.Broken?) && Enabled(s, e) then false
    else EmptyRead(capacity, before)
  }

  lemma NextRead(s: Receiver, e: Event)
    requires Inv(s)
    ensures Next(s, e).outstanding == Some(0) <==>
            if e.Start? && !s.running && s.intake.ring.Free() == 0 then true
            else if (e.Data? || e.Broken?) && Enabled(s, e) then false
            else s.outstanding == Some(0)
  {
    hide Acquire, LogOk, ScanHeader, EndByte, BadStream;
    FirstPiecesNonEmpty(s.intake.ring);
    if Enabled(s, e) {
      match e
      case Receive(room) =>
        var s' := s.(awaiting := Some(Awaiting(s.log.calls, room)), log := s.log.(calls := s.log.calls + 1));
        if s.error.None? {
          TryDeliverMakesRoom(s');
          FirstPiecesNonEmpty(TryDeliver(s').intake.ring);
        }
      case Data(chunk) =>
        CommitKeepsCore(s, chunk);
        FirstPiecesNonEmpty(TryDeliver(Commit(s, chunk)).intake.ring);
      case _ =>
    }
  }

  /** Whatever has happened, a pending receive has a read under way; once started, without an error,
      a read is under way unless the ring is full; and a read has room for at least one byte unless
      Start issued it into a full ring. */
  lemma {:induction false} NoLostWakeUp(capacity: nat, events: seq<Event>)
    requires capacity > 0
    ensures var s := RunFrom(capacity, events);
            && (s.awaiting.Some? ==> s.running && s.outstanding.Some?)
            && (s.outstanding.Some? ==> s.outstanding.value <= s.intake.ring.Free())
            && (s.started && s.error.None? ==> s.outstanding.Some? || s.intake.ring.Free() == 0)
            && (s.outstanding == Some(0) <==> EmptyRead(capacity, events))
  {
    hide Core, NothingToDeliver, Next;
    InitInv(capacity);
    if events != [] {
      var before := events[..|events| - 1];
      NoLostWakeUp(capacity, before);
      NextRead(RunFrom(capacity, before), events[|events| - 1]);
    }
  }

  // ----- the assertion in ReceiveAsync that no size field is held -----

  /** The last receive that waited for a message ended without one (it was cancelled, or the read
      failed, or the size was too large), and the size field of the next message had arrived in
      full by then. */
  ghost predicate EndedLate(capacity: nat, events: seq<Event>)
    requires capacity > 0
  {
    events != [] &&
    var before, e := events[..|events| - 1], events[|events| - 1];
    var s, s' := RunFrom(capacity, before), RunFrom(capacity, events);
    if (s.awaiting.Some? || (e.Receive? && s.error.None?)) && s'.awaiting.None? then
      s'.log.consumed == s.log.consumed && ScanHeader(Undelivered(s'.intake)).Field?
    else EndedLate(capacity, before)
  }

  /** Once everything there is of a size field has been scanned, it is held exactly if it is complete. */
  lemma FieldArrived(i: Intake)
    requires IntakeOk(i) && (i.sizeField.Some? || |i.header| >= MAX_FIELD_LENGTH || i.ring.bytes == [])
    ensures i.sizeField.Some? <==> ScanHeader(Undelivered(i)).Field?
  {
    ScanExtends(i.header, i.ring.bytes);
    if i.ring.bytes == [] {
      assert Undelivered(i) == i.header;
    }
  }

  /** A step that ends a waiting receive leaves a size field behind exactly if it hands over no
      message and the field has arrived. */
  lemma NextEnds(s: Receiver, e: Event)
    requires Inv(s) && (s.awaiting.Some? || (e.Receive? && s.error.None?)) && Next(s, e).awaiting.None?
    ensures var s' := Next(s, e);
            s'.intake.sizeField.Some? <==>
            s'.log.consumed == s.log.consumed && ScanHeader(Undelivered(s'.intake)).Field?
  {
    hide ScanHeader, EndByte, LogOk, BadStream, Acquire, Undelivered;
    match e
    case Receive(room) =>
      ScanEnds(s.(awaiting := Some(Awaiting(s.log.calls, room)), log := s.log.(calls := s.log.calls + 1)));
    case Data(chunk) =>
      CommitKeepsCore(s, chunk);
      ScanEnds(Commit(s, chunk));
    case _ =>
      FieldArrived(s.intake);
  }

  lemma ScanEnds(s: Receiver)
    requires IntakeOk(s.intake) && !Rejected(s.intake) && s.awaiting.Some? && TryDeliver(s).awaiting.None?
    ensures var s' := TryDeliver(s);
            s'.intake.sizeField.Some? <==>
            s'.log.consumed == s.log.consumed && ScanHeader(Undelivered(s'.intake)).Field?
  {
    hide ScanHeader, EndByte, BadStream, Acquire, Undelivered;
    AcquireOk(s.intake);
    if Rejected(Acquire(s.intake)) {
      FieldArrived(Acquire(s.intake));
    }
  }

  lemma NextIdle(s: Receiver, e: Event)
    requires Inv(s) && s.awaiting.None? && (e.Receive? ==> s.error.Some?)
    ensures Next(s, e).awaiting.None? && Next(s, e).intake.sizeField == s.intake.sizeField
  {
    hide ScanHeader, EndByte, LogOk, BadStream;
  }

  /** In every run, when no receive is pending, a size field is held exactly if the last receive
      that waited ended without a message after the next size field had arrived in full: exactly
      then does the assertion fail at the next call, with or without an earlier error. */
  lemma {:induction false} FieldHeldExactly(capacity: nat, events: seq<Event>)
    requires capacity > 0
    ensures var s := RunFrom(capacity, events);
            s.awaiting.None? ==> (s.intake.sizeField.Some? <==> EndedLate(capacity, events))
  {
    hide Next, Inv;
    if events == [] {
      InitInv(capacity);
    } else {
      var before, e := events[..|events| - 1], events[|events| - 1];
      var s := RunFrom(capacity, before);
      FieldHeldExactly(capacity, before);
      if Next(s, e).awaiting.None? {
        if s.awaiting.Some? || (e.Receive? && s.error.None?) {
          NextEnds(s, e);
        } else {
          NextIdle(s, e);
        }
      }
    }
  }

  /** Without a cancellation and without a receive error the assertion holds at every call. */
  lemma NoFieldHeldWithoutCancel(capacity: nat, events: seq<Event>)
    requires capacity > 0 && forall e <- events :: !e.Cancel?
    ensures var s := RunFrom(capacity, events);
            s.awaiting.None? && s.error.None? ==> s.intake.sizeField.None?
  {
    hide Inv, Run, EndedLate;
    FieldHeldExactly(capacity, events);
    if RunFrom(capacity, events).error.None? {
      NotEndedLate(capacity, events);
    }
  }

  lemma {:induction false} NotEndedLate(capacity: nat, events: seq<Event>)
    requires capacity > 0 && RunFrom(capacity, events).error.None? && forall e <- events :: !e.Cancel?
    ensures !EndedLate(capacity, events)
  {
    hide Inv, Next;
    if events != [] {
      var before, e := events[..|events| - 1], events[|events| - 1];
      var s := RunFrom(capacity, before);
      if s.error.Some? {
        NextAfterError(s, e);
      } else {
        NotEndedLate(capacity, before);
        NextDelivers(s, e);
      }
    }
  }

  /** Without a cancellation or an error, a receive ends with a message only. */
  lemma NextDelivers(s: Receiver, e: Event)
    requires Inv(s) && !e.Cancel? && Next(s, e).error.None?
    ensures var s' := Next(s, e);
            (s.awaiting.Some? || e.Receive?) && s'.awaiting.None? ==> |s'.log.consumed| > |s.log.consumed|
  {
    hide ScanHeader, EndByte, LogOk, BadStream, Acquire;
  }

  /** Runs after which it fails: a message of three bytes is announced, then the receive is
      cancelled, or the read fails, or three bytes are too many for the ring. */
  lemma FieldHeldExample()
    ensures var s := RunFrom(10, [Receive(5), Data([3]), Cancel]);
            s.awaiting.None? && s.error.None? && s.intake.sizeField == Some(3)
    ensures var s := RunFrom(10, [Receive(5), Data([3]), Broken(1)]);
            s.awaiting.None? && s.error == Some(TransportFailure(1)) && s.intake.sizeField == Some(3)
    ensures var s := RunFrom(2, [Receive(5), Data([3])]);
            s.awaiting.None? && s.error == Some(DeserializeMsgFailed) && s.intake.sizeField == Some(3)
  {
    hide Inv, Run, Next;
    InitInv(10);
    InitInv(2);
    RunThree(Init(10), Receive(5), Data([3]), Cancel);
    RunThree(Init(10), Receive(5), Data([3]), Broken(1));
    RunTwo(Init(2), Receive(5), Data([3]));
    Announced(10);
    Announced(2);
    var s := Next(Next(Init(10), Receive(5)), Data([3]));
    CancelOrFail(s);
  }

  lemma CancelOrFail(s: Receiver)
    requires Inv(s) && s.awaiting.Some?
    ensures Next(s, Cancel).awaiting.None? && Next(s, Cancel).error.None? && Next(s, Cancel).intake == s.intake
    ensures var s' := Next(s, Broken(1));
            s'.awaiting.None? && s'.error == Some(TransportFailure(1)) && s'.intake == s.intake
  {
    hide ScanHeader, LogOk;
  }

  /** The first receive is told of a message of three bytes. */
  lemma Announced(capacity: nat)
    requires capacity > 0 && Inv(Init(capacity))
    ensures var s := Next(Next(Init(capacity), Receive(5)), Data([3]));
            && s.intake.sizeField == Some(3)
            && if capacity < 3 then s.awaiting.None? && s.error == Some(DeserializeMsgFailed)
               else s.awaiting.Some?
  {
    hide Inv, TryDeliver, LogOk, ScanHeader, BadStream;
    FirstReceive(capacity, 5);
    ThreeAnnounced(Commit(Next(Init(capacity), Receive(5)), [3]));
  }

  lemma ThreeAnnounced(s: Receiver)
    requires s.intake == Intake(Ring(s.intake.ring.capacity, 0, [] + [3]), [], None)
    requires s.intake.ring.capacity > 0 && s.awaiting.Some? && s.error.None?
    ensures IntakeOk(s.intake)
    ensures var s' := TryDeliver(s);
            && s'.intake.sizeField == Some(3)
            && if s.intake.ring.capacity < 3 then s'.awaiting.None? && s'.error == Some(DeserializeMsgFailed)
               else s'.awaiting.Some?
  {
    hide ScanHeader;
    ScanOfThree();
    assert Undelivered(s.intake) == [3];
  }

  lemma ScanOfThree()
    ensures ScanHeader([3]) == Field(3, 1)
  {
    assert DecodeFrom(0, [3]) == Some(3);
    assert EndByte([3]) == 0;
    assert [3][..1] == [3];
  }

  /** The first receive of a fresh transport waits and has a read issued. */
  lemma FirstReceive(capacity: nat, room: nat)
    requires capacity > 0 && Inv(Init(capacity))
    ensures Next(Init(capacity), Receive(room)) ==
            Receiver(Intake(Ring(capacity, 0, []), [], None), Some(Awaiting(0, room)), true, Some(capacity), true, None,
                     Log(1, [], [], []))
  {
    hide ScanHeader, Inv, Run;
    InitInv(capacity);
    var i := Intake(Ring(capacity, 0, []), [], None);
    assert ScanHeader(Undelivered(i)) == Incomplete by { assert EndByte(Undelivered(i)) == 0; }
    assert Acquire(i) == i;
    var s := Receiver(i, Some(Awaiting(0, room)), false, None, false, None, Log(1, [], [], []));
    assert TryDeliver(s) == s;
  }

  lemma RunLast(s: Receiver, events: seq<Event>, e: Event)
    requires Inv(s)
    ensures Run(s, events + [e]) == Next(Run(s, events), e)
  {
    hide Inv, Next;
    assert (events + [e])[..|events|] == events;
  }

  lemma RunTwo(s: Receiver, a: Event, b: Event)
    requires Inv(s)
    ensures Run(s, [a, b]) == Next(Next(s, a), b)
  {
    hide Inv, Next;
    RunLast(s, [], a);
    RunLast(s, [a], b);
    assert [] + [a] == [a] && [a] + [b] == [a, b];
  }

  lemma RunThree(s: Receiver, a: Event, b: Event, c: Event)
    requires Inv(s)
    ensures Run(s, [a, b, c]) == Next(Next(Next(s, a), b), c)
  {
    hide Inv, Next;
    RunTwo(s, a, b);
    RunLast(s, [a, b], c);
    assert [a, b] + [c] == [a, b, c];
  }

  // ----- the read that Start issues -----

  /** Start asks the transport for zero bytes exactly if no read is under way and the ring is full. */
  lemma StartReadsNothing(s: Receiver)
    requires Inv(s)
    ensures ReadMore(s).outstanding == Some(0) <==>
            if s.running then s.outstanding == Some(0) else s.intake.ring.Free() == 0
  {
    FirstPiecesNonEmpty(s.intake.ring);
  }

  /** It happens to a transport whose ring was filled on behalf of an earlier receive, or of an
      earlier Start. */
  lemma StartReadsNothingExample()
    ensures var s := RunFrom(1, [Receive(0), Cancel, Data([7])]);
            !s.running && s.intake.ring.Free() == 0 && s.error.None?
    ensures var s := RunFrom(1, [Start, Data([7])]);
            !s.running && s.intake.ring.Free() == 0 && s.error.None?
  {
    hide Inv, Run;
    InitInv(1);
    RunThree(Init(1), Receive(0), Cancel, Data([7]));
    RunTwo(Init(1), Start, Data([7]));
    FirstReceive(1, 0);
    assert |([] + [7])| == 1;
  }
}
