/** Two message transports joined by a reliable byte stream: what one hands to its transport
    is what the other's transport delivers, in order, in pieces of any size. */
module Channel {
  import opened Common
  import opened SizeField
  import opened Framing
  import S = SendSide
  import SP = SendProperties
  import R = ReceiveSide
  import RP = ReceiveProperties

  datatype Channel = Channel(tx: S.Sender, rx: R.Receiver)

  datatype Event =
    | Sending(s: S.Event)
    | Receiving(r: R.Event)  // any event of the receiver but the arrival of data
    | Arrival(n: nat)        // the next n bytes in flight arrive

  ghost predicate Inv(c: Channel) {
    S.Inv(c.tx) && R.Inv(c.rx) && c.rx.log.received <= c.tx.wire
  }

  function InFlight(c: Channel): seq<byte>
    requires c.rx.log.received <= c.tx.wire
  {
    c.tx.wire[|c.rx.log.received|..]
  }

  lemma {:induction false} AbandonKeepsWire(s: S.Sender, code: int)
    ensures S.Abandon(s, code).wire == s.wire
    decreases |s.pending|
  {
    if s.pending != [] {
      AbandonKeepsWire(S.AbandonFirst(s, code), code);
    }
  }

  /** Bytes on the wire stay there. */
  lemma WireGrows(s: S.Sender, e: S.Event)
    requires S.Inv(s)
    ensures s.wire <= S.Next(s, e).wire
  {
    hide S.InOrder, S.StreamOk, S.CompletedOnce;
    match e
    case Written(n) =>
      if S.Enabled(s, e) {
        SP.WriteProgress(s, n);
      }
    case Broken(n, code) =>
      if S.Enabled(s, e) {
        var s' := s.(outstanding := None, error := Some(code), wire := s.wire + s.ring.bytes[..n]);
        AbandonKeepsWire(s', code);
      }
    case _ =>
  }

  lemma DeliveryReceivesNothing(s: R.Receiver)
    requires R.IntakeOk(s.intake) && (s.awaiting.Some? ==> !R.Rejected(s.intake))
    ensures R.TryDeliver(s).log.received == s.log.received
  {
    hide ScanHeader, EndByte, R.Acquire;
  }

  lemma ReceivedGrows(s: R.Receiver, e: R.Event)
    requires R.Inv(s)
    ensures R.Next(s, e).log.received ==
            if e.Data? && R.Enabled(s, e) then s.log.received + e.chunk else s.log.received
  {
    hide ScanHeader, EndByte, R.LogOk, R.TryDeliver, R.BadStream;
    if R.Enabled(s, e) {
      match e
      case Receive(room) =>
        if s.error.None? {
          DeliveryReceivesNothing(s.(awaiting := Some(R.Awaiting(s.log.calls, room)),
                                     log := s.log.(calls := s.log.calls + 1)));
        }
      case Data(chunk) =>
        R.CommitKeepsCore(s, chunk);
        DeliveryReceivesNothing(R.Commit(s, chunk));
      case _ =>
    }
  }

  ghost function Next(c: Channel, e: Event): (c': Channel)
    requires Inv(c)
    ensures Inv(c') && c'.rx.intake.ring.capacity == c.rx.intake.ring.capacity
  {
    hide S.Inv, R.Inv, S.Next, R.Next;
    match e
    case Sending(s) =>
      WireGrows(c.tx, s);
      c.(tx := S.Next(c.tx, s))
    case Receiving(r) =>
      ReceivedGrows(c.rx, r);
      if r.Data? then c else c.(rx := R.Next(c.rx, r))
    case Arrival(n) =>
      if n > |InFlight(c)| then c
      else
        ReceivedGrows(c.rx, R.Data(InFlight(c)[..n]));
        c.(rx := R.Next(c.rx, R.Data(InFlight(c)[..n])))
  }

  /** Each side takes its own steps and leaves the other alone; the bytes that arrive are the next
      ones in flight. */
  lemma SidesAct(c: Channel, e: Event)
    requires Inv(c)
    ensures match e
            case Sending(s) => Next(c, e).tx == S.Next(c.tx, s) && Next(c, e).rx == c.rx
            case Receiving(r) => !r.Data? ==> Next(c, e).tx == c.tx && Next(c, e).rx == R.Next(c.rx, r)
            case Arrival(n) =>
              forall chunk: seq<byte> :: |chunk| == n && c.rx.log.received + chunk <= c.tx.wire ==>
                Next(c, e).tx == c.tx && Next(c, e).rx == R.Next(c.rx, R.Data(chunk))
  {
    hide S.Inv, R.Inv, S.Next, R.Next;
    if e.Arrival? {
      forall chunk: seq<byte> | |chunk| == e.n && c.rx.log.received + chunk <= c.tx.wire
        ensures e.n <= |InFlight(c)| && chunk == InFlight(c)[..e.n]
      {
        var all := c.rx.log.received + chunk;
        assert all == c.tx.wire[..|all|];
        assert chunk == all[|c.rx.log.received|..];
      }
    }
  }

  ghost function Run(c: Channel, events: seq<Event>): (c': Channel)
    requires Inv(c)
    ensures Inv(c') && c'.rx.intake.ring.capacity == c.rx.intake.ring.capacity
  {
    hide Inv, Next;
    if events == [] then c else Next(Run(c, events[..|events| - 1]), events[|events| - 1])
  }

  ghost function RunFrom(txCapacity: nat, rxCapacity: nat, events: seq<Event>): (c: Channel)
    requires rxCapacity > 0
    ensures Inv(c) && c.rx.intake.ring.capacity == rxCapacity
  {
    S.InitInv(txCapacity);
    R.InitInv(rxCapacity);
    Run(Channel(S.Init(txCapacity), R.Init(rxCapacity)), events)
  }

  /** The messages submitted and neither refused nor cancelled, in submission order. */
  ghost function Submitted(c: Channel): seq<Message> {
    S.LiveMessages(c.tx.log)
  }

  function Delivered(c: Channel): seq<R.Completion> {
    R.Deliveries(c.rx.log.completions)
  }

  lemma ReceivedIsPrefix(c: Channel)
    requires Inv(c)
    ensures Raw(c.rx.log.consumed) + R.Undelivered(c.rx.intake) <= Frames(Submitted(c))
  {
    hide S.Inv;
    SP.StreamInOrder(c.tx);
    var got, sent, all := c.rx.log.received, c.tx.wire, Frames(Submitted(c));
    assert got == sent[..|got|] && sent == all[..|sent|];
  }

  // ----- the end-to-end theorems -----

  /** Every message accepted and not cancelled is below 2^35 bytes, */
  ghost predicate AllEncodable(c: Channel) {
    forall k :: 0 <= k < |c.tx.log.calls| && c.tx.log.calls[k].status.Accepted? ==>
      |c.tx.log.calls[k].msg| < SIZE_LIMIT
  }

  /** and also fits the receiver's ring. */
  ghost predicate AllAcceptable(c: Channel) {
    AllEncodable(c) &&
    forall k :: 0 <= k < |c.tx.log.calls| && c.tx.log.calls[k].status.Accepted? ==>
      |c.tx.log.calls[k].msg| <= c.rx.intake.ring.capacity
  }

  lemma SubmittedAreAccepted(c: Channel)
    requires S.Inv(c.tx)
    ensures AllEncodable(c) ==> forall m <- Submitted(c) :: |m| < SIZE_LIMIT
    ensures AllAcceptable(c) ==> forall m <- Submitted(c) :: |m| < SIZE_LIMIT && |m| <= c.rx.intake.ring.capacity
  {
    hide S.Inv;
    forall m | m in Submitted(c)
      ensures AllEncodable(c) ==> |m| < SIZE_LIMIT
      ensures AllAcceptable(c) ==> |m| <= c.rx.intake.ring.capacity
    {
      var i :| 0 <= i < |Submitted(c)| && Submitted(c)[i] == m;
      assert c.tx.log.calls[S.Live(c.tx.log.calls)[i]].status.Accepted?;
    }
  }

  /** The k-th message handed to the receiver's callers is the k-th message submitted, byte for
      byte up to the room the receiver gave, for every chunking and interleaving. */
  lemma DeliveredInOrder(c: Channel)
    requires Inv(c) && AllEncodable(c)
    ensures |Delivered(c)| <= |Submitted(c)|
    ensures forall k :: 0 <= k < |Delivered(c)| ==> R.Delivers(Delivered(c)[k], Submitted(c)[k])
  {
    hide S.Inv, S.Live, AllEncodable;
    SubmittedAreAccepted(c);
    ReceivedIsPrefix(c);
    TakenArePrefix(c.rx.log.consumed, R.Undelivered(c.rx.intake), Submitted(c), c.rx.intake.ring.capacity);
    assert forall k :: 0 <= k < |c.rx.log.consumed| ==> c.rx.log.consumed[k].payload == Submitted(c)[k];
  }

  /** Messages that fit the receiver's ring never cause a framing error. */
  lemma NoFramingError(c: Channel)
    requires Inv(c) && AllAcceptable(c)
    ensures c.rx.error != Some(R.DeserializeMsgFailed)
  {
    hide S.Inv, S.Live, R.LogOk, AllAcceptable;
    SubmittedAreAccepted(c);
    ReceivedIsPrefix(c);
    var k := |c.rx.log.consumed|;
    assert AllFramed(c.rx.log.consumed, c.rx.intake.ring.capacity) by { ConsumedAreFramed(c.rx); }
    TakenArePrefix(c.rx.log.consumed, R.Undelivered(c.rx.intake), Submitted(c), c.rx.intake.ring.capacity);
    BlockedPrefix(R.Undelivered(c.rx.intake), Submitted(c)[k..], c.rx.intake.ring.capacity);
  }

  lemma ConsumedAreFramed(s: R.Receiver)
    requires R.Inv(s)
    ensures AllFramed(s.log.consumed, s.intake.ring.capacity)
    ensures |R.Deliveries(s.log.completions)| == |s.log.consumed|
  {
  }

  /** The receiver reports a malformed or oversized size field exactly if the next message is larger
      than its ring and the message's size field has arrived in full; while a receive is pending it
      has not. */
  lemma FramingErrorExactly(c: Channel)
    requires Inv(c) && AllEncodable(c)
    requires c.rx.awaiting.Some? || c.rx.error == Some(R.DeserializeMsgFailed)
    ensures var k := |c.rx.log.consumed|;
            c.rx.error == Some(R.DeserializeMsgFailed) <==>
              && k < |Submitted(c)| && |Submitted(c)[k]| > c.rx.intake.ring.capacity
              && |R.Undelivered(c.rx.intake)| >= |Encode(|Submitted(c)[k]|)|
  {
    hide S.Inv, S.Live, R.LogOk, ScanHeader, EncodeGroups, AllEncodable;
    SubmittedAreAccepted(c);
    ReceivedIsPrefix(c);
    var k := |c.rx.log.consumed|;
    ConsumedAreFramed(c.rx);
    TakenArePrefix(c.rx.log.consumed, R.Undelivered(c.rx.intake), Submitted(c), c.rx.intake.ring.capacity);
    HeaderArrived(R.Undelivered(c.rx.intake), Submitted(c)[k..]);
    BadStreamIsReported(c.rx);
  }

  lemma BadStreamIsReported(s: R.Receiver)
    requires R.Inv(s) && (s.awaiting.Some? || s.error == Some(R.DeserializeMsgFailed))
    ensures s.error == Some(R.DeserializeMsgFailed) <==> R.BadStream(R.Undelivered(s.intake), s.intake.ring.capacity)
  {
    hide R.LogOk, EndByte;
    if s.awaiting.Some? {
      RP.PendingIsBlocked(s);
      ScanExtends(s.intake.header, s.intake.ring.bytes);
    }
  }

  /** When nothing is under way any more and a receive is pending, everything has been delivered. */
  lemma QuiescentIsComplete(c: Channel)
    requires Inv(c) && AllAcceptable(c)
    requires c.tx.error.None? && c.tx.outstanding.None? && InFlight(c) == [] && c.rx.awaiting.Some?
    ensures |Delivered(c)| == |Submitted(c)|
  {
    hide S.Inv, S.Live, R.Inv, AllAcceptable;
    SubmittedAreAccepted(c);
    SP.NothingRemains(c.tx);
    assert c.rx.log.received == c.tx.wire;
    ConsumedAreFramed(c.rx);
    RP.PendingIsBlocked(c.rx);
    RP.DeliveriesAreTheParse(c.rx);
    ParseFrames(Submitted(c), c.rx.intake.ring.capacity);
  }

  // ----- and nothing gets stuck -----

  /** A write or a read is completed, with at least one byte unless the read asked for none. */
  ghost predicate Progress(c: Channel, e: Event)
    requires Inv(c)
  {
    match e
    case Sending(s) => SP.Writes(c.tx, s)
    case Receiving(_) => false
    case Arrival(n) =>
      && c.rx.outstanding.Some? && n <= c.rx.outstanding.value && n <= |InFlight(c)|
      && (n > 0 || c.rx.outstanding.value == 0)
  }

  ghost predicate OnlyProgress(c: Channel, events: seq<Event>)
    requires Inv(c)
  {
    forall i :: 0 <= i < |events| ==> Progress(Run(c, events[..i]), events[i])
  }

  /** How many completions there can be */
  function Measure(c: Channel): nat
    requires c.rx.log.received <= c.tx.wire
  {
    2 * SP.Remaining(c.tx) + |InFlight(c)| + if c.rx.outstanding == Some(0) then 1 else 0
  }

  /** Still waiting with nothing new delivered, or served with one message more. */
  ghost predicate Served(before: Channel, c: Channel) {
    && c.tx.error.None? && c.tx.log.calls == before.tx.log.calls && c.rx.error.None?
    && c.rx.intake.ring.capacity == before.rx.intake.ring.capacity
    && |c.rx.log.consumed| == |before.rx.log.consumed| + (if c.rx.awaiting.Some? then 0 else 1)
  }

  /** Data that arrives while nobody waits is kept. */
  lemma DataWhileIdle(s: R.Receiver, chunk: seq<byte>)
    requires R.Inv(s) && s.awaiting.None? && R.Enabled(s, R.Data(chunk))
    ensures var s' := R.Next(s, R.Data(chunk));
            s'.awaiting.None? && s'.error == s.error && s'.log.consumed == s.log.consumed
  {
    hide ScanHeader, EndByte, R.LogOk, R.BadStream;
  }

  lemma WriteServes(before: Channel, c: Channel, s: S.Event)
    requires Inv(c) && Served(before, c) && SP.Writes(c.tx, s)
    ensures Served(before, Next(c, Sending(s))) && Measure(Next(c, Sending(s))) < Measure(c)
  {
    hide S.Inv, R.Inv, S.Next, R.Next, SP.Remaining;
    SP.WriteProgress(c.tx, s.n);
    OutstandingFits(c.tx);
  }

  lemma OutstandingFits(s: S.Sender)
    requires S.Inv(s) && s.outstanding.Some?
    ensures s.outstanding.value <= |s.ring.bytes|
  {
  }

  lemma ArrivalServes(before: Channel, c: Channel, n: nat)
    requires Inv(c) && Served(before, c) && Progress(c, Arrival(n)) && AllAcceptable(c)
    ensures Served(before, Next(c, Arrival(n))) && Measure(Next(c, Arrival(n))) < Measure(c)
  {
    hide S.Inv, R.Inv, R.Next, SP.Remaining;
    var chunk := InFlight(c)[..n];
    ReceivedGrows(c.rx, R.Data(chunk));
    RP.NextRead(c.rx, R.Data(chunk));
    if c.rx.awaiting.Some? {
      RP.DataStep(c.rx, chunk);
      NoFramingError(Next(c, Arrival(n)));
    } else {
      DataWhileIdle(c.rx, chunk);
    }
  }

  lemma ErrorFree(s: R.Receiver)
    requires R.Inv(s) && s.awaiting.Some?
    ensures s.error.None? && s.outstanding.Some?
  {
  }

  lemma {:induction false} ProgressServes(c: Channel, events: seq<Event>)
    requires Inv(c) && AllAcceptable(c) && c.tx.error.None? && c.rx.awaiting.Some? && OnlyProgress(c, events)
    ensures Served(c, Run(c, events)) && |events| + Measure(Run(c, events)) <= Measure(c)
  {
    hide S.Inv, R.Inv, Next, Progress, S.Live, Measure;
    if events == [] {
      ErrorFree(c.rx);
    } else {
      var n := |events| - 1;
      assert forall i :: 0 <= i < n ==> events[..n][..i] == events[..i];
      ProgressServes(c, events[..n]);
      StepServes(c, Run(c, events[..n]), events[n]);
    }
  }

  lemma StepServes(before: Channel, c: Channel, e: Event)
    requires Inv(c) && Served(before, c) && Progress(c, e) && AllAcceptable(before)
    ensures Served(before, Next(c, e)) && Measure(Next(c, e)) < Measure(c)
  {
    hide S.Inv, R.Inv, Next, S.Live, Served, Measure, SP.Writes;
    SameSubmitted(before, c);
    match e
    case Sending(s) => WriteServes(before, c, s);
    case Arrival(n) => ArrivalServes(before, c, n);
  }

  lemma SameSubmitted(before: Channel, c: Channel)
    requires Inv(c) && Served(before, c)
    ensures S.AllBelow(S.Live(before.tx.log.calls), |before.tx.log.calls|)
    ensures Submitted(c) == Submitted(before) && c.rx.intake.ring.capacity == before.rx.intake.ring.capacity
    ensures AllAcceptable(before) ==> AllAcceptable(c)
  {
    hide S.Live, S.Inv, R.Inv;
  }

  /** As long as a submitted message is undelivered and a receive waits, a write or a read can be
      completed. */
  lemma NotStuck(c: Channel)
    requires Inv(c) && AllAcceptable(c)
    requires c.tx.error.None? && c.rx.awaiting.Some? && |Delivered(c)| < |Submitted(c)|
    ensures exists e: Event :: Progress(c, e)
  {
    hide S.Inv, S.Live, R.Inv, SP.Writes;
    ErrorFree(c.rx);
    SP.GoesOnOrDone(c.tx);
    if c.tx.outstanding.Some? {
      assert Progress(c, Sending(S.Written(1)));
    } else if InFlight(c) == [] {
      QuiescentIsComplete(c);
    } else {
      assert Progress(c, Arrival(Min(1, c.rx.outstanding.value)));
    }
  }

  /** A pending receive gets the next submitted message, if there is one, whatever the schedule:
      writes and reads may be completed in any order and with any number of bytes. As long as it
      waits there is one to be completed, and after at most so many of them it has been served,
      with exactly one message. */
  lemma PendingIsServed(c: Channel, events: seq<Event>)
    requires Inv(c) && AllAcceptable(c) && OnlyProgress(c, events)
    requires c.tx.error.None? && c.rx.awaiting.Some? && |Delivered(c)| < |Submitted(c)|
    ensures var c' := Run(c, events);
            if c'.rx.awaiting.Some? then
              |events| < Measure(c) && |Delivered(c')| == |Delivered(c)| && exists e: Event :: Progress(c', e)
            else |Delivered(c')| == |Delivered(c)| + 1
  {
    hide S.Inv, S.Live, R.Inv, Next, Progress, OnlyProgress, Measure;
    ProgressServes(c, events);
    var c' := Run(c, events);
    SameSubmitted(c, c');
    ConsumedAreFramed(c.rx);
    ConsumedAreFramed(c'.rx);
    if c'.rx.awaiting.Some? {
      NotStuck(c');
      var e: Event :| Progress(c', e);
      StepServes(c, c', e);
    }
  }
}
