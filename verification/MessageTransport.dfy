/** MessageTransport: framed messages over a byte transport. The transport's asynchronous
    operations are split in two: issuing one records the length of the piece of the ring it
    was given, and OnSendCompleted, OnSendFailed, OnReceiveCompleted and OnReceiveFailed are
    the bodies of its completion handlers. Handlers of this class's own callers are numbered
    by call; the ghost logs record their calls.

    Each method takes the step of SendSide or ReceiveSide named in its contract and leaves
    the other half alone. */
module MessageTransport {
  import opened Common
  import opened SizeField
  import opened RingBuffer
  import opened Framing
  import S = SendSide
  import R = ReceiveSide

  class MessageTransport {
    const tx_rb_: LockFreeRingBuffer
    var closed_: bool  // whether Close of the transport was called
    var last_tx_error_: Option<int>
    var send_to_transport_running_: bool
    var pending_sends_: seq<S.PendingSend>
    var outstanding_write_: Option<nat>
    var send_calls_: nat
    ghost var wire_: seq<byte>
    ghost var tx_log_: S.Log

    const rx_rb_: LockFreeRingBuffer
    const size_field_buffer_: array<byte>
    var size_field_buffer_size_: nat
    var size_field_: nat
    var size_field_valid_: bool
    var pending_receive_buffer_: array<byte>
    var pending_receive_handler_: Option<nat>
    var receive_from_transport_running_: bool
    var last_rx_error_: Option<R.Failure>
    var outstanding_read_: Option<nat>
    var receive_calls_: nat
    ghost var started_: bool
    ghost var rx_log_: R.Log

    // ----- the abstract state -----

    ghost function Sending(): S.Sender
      requires tx_rb_.Valid()
      reads this`send_to_transport_running_, this`outstanding_write_, this`pending_sends_, this`last_tx_error_
      reads this`wire_, this`tx_log_, tx_rb_, tx_rb_.data_
    {
      S.Sender(tx_rb_.View(), send_to_transport_running_, outstanding_write_, pending_sends_,
               last_tx_error_, wire_, tx_log_)
    }

    ghost function HeldIntake(): R.Intake
      requires rx_rb_.Valid() && size_field_buffer_size_ <= size_field_buffer_.Length
      reads this`size_field_buffer_size_, this`size_field_, this`size_field_valid_
      reads size_field_buffer_, rx_rb_, rx_rb_.data_
    {
      R.Intake(rx_rb_.View(), size_field_buffer_[..size_field_buffer_size_],
               if size_field_valid_ then Some(size_field_) else None)
    }

    ghost function Pending(): Option<R.Awaiting>
      reads this`pending_receive_handler_, this`pending_receive_buffer_
    {
      if pending_receive_handler_.None? then None
      else Some(R.Awaiting(pending_receive_handler_.value, pending_receive_buffer_.Length))
    }

    ghost function Receiving(): R.Receiver
      requires RxShape()
      reads this`size_field_buffer_size_, this`size_field_, this`size_field_valid_
      reads this`pending_receive_handler_, this`pending_receive_buffer_
      reads this`receive_from_transport_running_, this`outstanding_read_, this`started_, this`last_rx_error_
      reads this`receive_calls_, this`rx_log_, this`closed_
      reads size_field_buffer_, rx_rb_, rx_rb_.data_
    {
      R.Receiver(HeldIntake(), Pending(), receive_from_transport_running_, outstanding_read_, started_,
                 last_rx_error_, rx_log_)
    }

    ghost predicate TxValid()
      reads this`send_to_transport_running_, this`outstanding_write_, this`pending_sends_, this`last_tx_error_
      reads this`send_calls_, this`wire_, this`tx_log_, this`closed_, tx_rb_, tx_rb_.data_
    {
      tx_rb_.Valid() && send_calls_ == |tx_log_.calls| && (last_tx_error_.Some? ==> closed_) && S.Inv(Sending())
    }

    ghost predicate RxShape()
      reads this`size_field_buffer_size_, this`pending_receive_buffer_, this`receive_calls_, this`rx_log_, rx_rb_
      reads this`last_rx_error_, this`closed_
    {
      && rx_rb_.Valid()
      && size_field_buffer_.Length == MAX_FIELD_LENGTH && size_field_buffer_size_ <= MAX_FIELD_LENGTH
      && size_field_buffer_ != rx_rb_.data_
      && pending_receive_buffer_ != rx_rb_.data_ && pending_receive_buffer_ != size_field_buffer_
      && receive_calls_ == rx_log_.calls
      && (last_rx_error_.Some? ==> closed_)
    }

    ghost predicate RxValid()
      reads this`size_field_buffer_size_, this`size_field_, this`size_field_valid_
      reads this`pending_receive_handler_, this`pending_receive_buffer_
      reads this`receive_from_transport_running_, this`outstanding_read_, this`started_, this`last_rx_error_
      reads this`receive_calls_, this`rx_log_, this`closed_
      reads size_field_buffer_, rx_rb_, rx_rb_.data_
    {
      RxShape() && R.Inv(Receiving())
    }

    /** The halves share nothing, so a step of one keeps the other valid. */
    ghost predicate Valid()
      reads this, tx_rb_, tx_rb_.data_, rx_rb_, rx_rb_.data_, size_field_buffer_
    {
      && TxValid() && RxValid()
      && tx_rb_ != rx_rb_ && tx_rb_.data_ != rx_rb_.data_
      && tx_rb_.data_ != size_field_buffer_ && tx_rb_.data_ != pending_receive_buffer_
    }

    constructor (txQueueSize: nat, rxQueueSize: nat)
      requires txQueueSize + 1 <= MAX_VECTOR_SIZE && 0 < rxQueueSize && rxQueueSize + 1 <= MAX_VECTOR_SIZE
      ensures Valid()
      ensures !closed_ && Sending() == S.Init(txQueueSize) && Receiving() == R.Init(rxQueueSize)
      ensures tx_rb_.capacity_ == txQueueSize && rx_rb_.capacity_ == rxQueueSize
      ensures fresh(tx_rb_) && fresh(tx_rb_.data_) && fresh(rx_rb_) && fresh(rx_rb_.data_)
      ensures fresh(size_field_buffer_) && fresh(pending_receive_buffer_)
    {
      hide S.Inv, R.Inv, Circular;
      tx_rb_ := new LockFreeRingBuffer(txQueueSize);
      rx_rb_ := new LockFreeRingBuffer(rxQueueSize);
      closed_ := false;
      last_tx_error_ := None;
      send_to_transport_running_ := false;
      pending_sends_ := [];
      outstanding_write_ := None;
      size_field_buffer_ := new byte[MAX_FIELD_LENGTH](_ => 0);
      size_field_buffer_size_ := 0;
      size_field_ := 0;
      size_field_valid_ := false;
      pending_receive_buffer_ := new byte[0];
      pending_receive_handler_ := None;
      receive_from_transport_running_ := false;
      last_rx_error_ := None;
      outstanding_read_ := None;
      send_calls_, receive_calls_ := 0, 0;
      wire_, tx_log_ := [], S.Log([], [], [], []);
      started_, rx_log_ := false, R.Log(0, [], [], []);
      new;
      StartsEmpty(txQueueSize, rxQueueSize);
    }

    lemma StartsEmpty(txQueueSize: nat, rxQueueSize: nat)
      requires tx_rb_.Valid() && rx_rb_.Valid() && rxQueueSize > 0
      requires tx_rb_.View() == Ring(txQueueSize, 0, []) && rx_rb_.View() == Ring(rxQueueSize, 0, [])
      requires !send_to_transport_running_ && pending_sends_ == [] && outstanding_write_ == None
      requires last_tx_error_ == None && send_calls_ == 0 && wire_ == [] && tx_log_ == S.Log([], [], [], [])
      requires RxShape() && size_field_buffer_size_ == 0 && !size_field_valid_ && pending_receive_handler_ == None
      requires !receive_from_transport_running_ && outstanding_read_ == None && !started_
      requires last_rx_error_ == None && rx_log_ == R.Log(0, [], [], [])
      ensures TxValid() && Sending() == S.Init(txQueueSize)
      ensures RxValid() && Receiving() == R.Init(rxQueueSize)
    {
      hide S.Inv, R.Inv, Circular;
      assert size_field_buffer_[..0] == [];
      S.InitInv(txQueueSize);
      R.InitInv(rxQueueSize);
    }

    // ----- sending -----

    method TrySend(msg: Message) returns (r: S.TryResult)
      requires TxValid() && S.Fits(msg, tx_rb_.capacity_)
      modifies this`send_to_transport_running_, this`outstanding_write_, this`send_calls_, this`tx_log_
      modifies tx_rb_`write_idx_, tx_rb_.data_
      ensures TxValid()
      ensures (Sending(), r) == S.TrySend(old(Sending()), msg)
    {
      hide S.Inv, Circular;
      S.TrySendKeepsInv(Sending(), msg);
      var call := send_calls_;
      send_calls_ := send_calls_ + 1;
      if last_tx_error_.Some? {
        tx_log_ := S.Record(Sending(), msg, false, S.Rejected).log;
        return S.Thrown(last_tx_error_.value);
      }
      var ok := false;
      if pending_sends_ == [] {
        ok := TrySendImpl(msg, call, S.Call(msg, false, S.Accepted));
      }
      if !ok {
        tx_log_ := S.Record(Sending(), msg, false, S.Rejected).log;
      }
      return S.Returned(ok);
    }

    method SendAsync(msg: Message, tag: int)
      requires TxValid() && S.Fits(msg, tx_rb_.capacity_)
      requires tag != 0 ==> S.FindTag(pending_sends_, tag) == |pending_sends_|
      modifies this`send_to_transport_running_, this`outstanding_write_, this`pending_sends_
      modifies this`send_calls_, this`tx_log_
      modifies tx_rb_`write_idx_, tx_rb_.data_
      ensures TxValid()
      ensures Sending() == S.SendAsync(old(Sending()), msg, tag)
      ensures |pending_sends_| > |old(pending_sends_)| ==> send_to_transport_running_  // as the source asserts
    {
      hide S.Inv, Circular;
      S.SendAsyncKeepsInv(Sending(), msg, tag);
      QueuedBehindWrite(S.SendAsync(Sending(), msg, tag));
      var call := send_calls_;
      send_calls_ := send_calls_ + 1;
      if last_tx_error_.Some? {
        tx_log_ := S.Complete(S.Record(Sending(), msg, true, S.Rejected), call, S.SendFailed(last_tx_error_.value)).log;
        return;
      }
      var ok := false;
      if pending_sends_ == [] {
        ok := TrySendImpl(msg, call, S.Call(msg, true, S.Accepted));
      }
      if ok {
        tx_log_ := S.Complete(Sending(), call, S.Sent).log;
      } else {
        tx_log_ := S.Record(Sending(), msg, true, S.Accepted).log;
        pending_sends_ := pending_sends_ + [S.PendingSend(tag, msg, call)];
      }
    }

    static lemma QueuedBehindWrite(s: S.Sender)
      requires S.Inv(s)
      ensures s.pending != [] ==> s.running
    {
    }

    method CancelSend(tag: int) returns (found: bool)
      requires TxValid() && tag != 0
      modifies this`pending_sends_, this`tx_log_
      ensures TxValid()
      ensures (Sending(), found) == S.CancelSend(old(Sending()), tag)
    {
      hide S.Inv, Circular;
      S.CancelSendKeepsInv(Sending(), tag);
      var i := S.FindTag(pending_sends_, tag);
      if i == |pending_sends_| {
        return false;
      }
      tx_log_ := S.Withdraw(Sending(), i).log;
      pending_sends_ := pending_sends_[..i] + pending_sends_[i + 1..];
      return true;
    }

    /** `call` is the log's entry for the call on whose behalf this happens, to be added if
        it is new and the message is sent. */
    method TrySendImpl(msg: Message, ghost call: nat, ghost entry: S.Call) returns (ok: bool)
      requires tx_rb_.Valid() && call <= |tx_log_.calls|
      modifies this`send_to_transport_running_, this`outstanding_write_, this`tx_log_, tx_rb_`write_idx_, tx_rb_.data_
      ensures tx_rb_.Valid()
      ensures ok <==> S.CanSend(old(Sending()).ring, |msg|)
      ensures !ok ==> Sending() == old(Sending())
      ensures ok ==> Sending() == S.Enqueue(Noted(old(Sending()), call, entry), msg, call)
    {
      hide Circular, EncodeGroups;
      ok := CanSend(|msg|);
      if !ok {
        return;
      }
      ghost var before := Sending();
      var sizeFieldBuf := new byte[MAX_FIELD_LENGTH];
      var n := SerializeMsgSizeField(|msg|, sizeFieldBuf);
      var written := tx_rb_.Write(sizeFieldBuf[..n]);
      assert sizeFieldBuf[..n][..n] == Encode(|msg|);
      assert tx_rb_.View() == before.ring.Append(Encode(|msg|));
      written := tx_rb_.Write(msg);
      assert msg[..|msg|] == msg;
      ConcatAssociative(before.ring.bytes, Encode(|msg|), msg);
      ghost var noted := Noted(before, call, entry);
      tx_log_ := noted.log.(sent := noted.log.sent + [call]);
      SendSomeBytesToTransport();
    }

    ghost function Noted(s: S.Sender, call: nat, entry: S.Call): S.Sender {
      if call < |s.log.calls| then s else S.Record(s, entry.msg, entry.async, entry.status)
    }

    method CanSend(msgSize: nat) returns (ok: bool)
      requires tx_rb_.Valid()
      ensures ok <==> S.CanSend(tx_rb_.View(), msgSize)
    {
      var n := tx_rb_.AvailableForWrite();
      FastPathAgrees(n, msgSize);
      if n >= msgSize + 5 {
        return true;
      }
      return n >= msgSize + FieldLength(msgSize);
    }

    method SendSomeBytesToTransport()
      requires tx_rb_.Valid()
      modifies this`send_to_transport_running_, this`outstanding_write_
      ensures Sending() == S.SendSome(old(Sending()))
    {
      if send_to_transport_running_ {
        return;
      }
      send_to_transport_running_ := true;
      outstanding_write_ := Some(tx_rb_.FirstReadArray().1);
    }

    method RetrySendingPendingSends()
      requires tx_rb_.Valid()
      requires forall i :: 0 <= i < |pending_sends_| ==> pending_sends_[i].call < |tx_log_.calls|
      modifies this`send_to_transport_running_, this`outstanding_write_, this`pending_sends_, this`tx_log_
      modifies tx_rb_`write_idx_, tx_rb_.data_
      ensures tx_rb_.Valid() && Sending() == S.Retry(old(Sending())) && tx_log_.calls == old(tx_log_.calls)
    {
      hide Circular, S.Retry, S.SendFirst, S.Enqueue;
      ghost var before := Sending();
      var it := 0;
      while it != |pending_sends_|
        invariant tx_rb_.Valid()
        invariant it <= |pending_sends_| && pending_sends_ == before.pending
        invariant tx_log_.calls == before.log.calls
        invariant S.Retry(Sending().(pending := pending_sends_[it..])) == S.Retry(before)
        decreases |pending_sends_| - it
      {
        ghost var s := Sending().(pending := pending_sends_[it..]);
        var p := pending_sends_[it];
        RetryOnce(s, Sending());
        var ok := TrySendImpl(p.msg, p.call, S.Call(p.msg, true, S.Accepted));
        if !ok {
          break;
        }
        tx_log_ := S.Complete(Sending(), p.call, S.Sent).log;
        it := it + 1;
      }
      RetryOnce(Sending().(pending := pending_sends_[it..]), Sending());
      pending_sends_ := pending_sends_[it..];
    }

    /** One round of that loop; what lies in front of the queue does not matter. */
    static lemma RetryOnce(s: S.Sender, s': S.Sender)
      requires s.ring.Valid() && s' == s.(pending := s'.pending)
      ensures s.pending == [] || !S.CanSend(s.ring, |s.pending[0].msg|) ==> S.Retry(s) == s
      ensures s.pending != [] && S.CanSend(s.ring, |s.pending[0].msg|) ==>
                var p := s.pending[0];
                var sent := S.Complete(S.Enqueue(s', p.msg, p.call), p.call, S.Sent);
                S.Retry(s) == S.Retry(sent.(pending := s.pending[1..])) && sent.pending == s'.pending &&
                sent.log.calls == s.log.calls
    {
    }

    method OnSendCompleted(n: nat)
      requires TxValid() && outstanding_write_.Some? && n <= outstanding_write_.value
      modifies this`send_to_transport_running_, this`outstanding_write_, this`pending_sends_, this`tx_log_, this`wire_
      modifies tx_rb_, tx_rb_.data_
      ensures TxValid()
      ensures Sending() == S.WriteCompleted(old(Sending()), n)
    {
      hide Circular, S.Inv, S.Retry;
      ghost var before := Sending();
      WriteInProgress(before);
      S.WriteCompletedKeepsInv(before, n);
      wire_ := wire_ + tx_rb_.View().bytes[..n];
      tx_rb_.CommitFirstReadArray(n);
      send_to_transport_running_ := false;
      outstanding_write_ := None;
      assert Sending() == S.CommitWritten(before, n);
      if !tx_rb_.Empty() {
        SendSomeBytesToTransport();
      }
      RetrySendingPendingSends();
    }

    static lemma WriteInProgress(s: S.Sender)
      requires S.Inv(s) && s.outstanding.Some?
      ensures s.error.None? && s.outstanding.value <= s.ring.FirstReadLength()
      ensures forall i :: 0 <= i < |s.pending| ==> s.pending[i].call < |s.log.calls|
    {
      assert forall i :: 0 <= i < |s.pending| ==> s.pending[i] in s.pending;
    }

    /** The `n` bytes that may have been transferred before the error are all the peer gets. */
    method OnSendFailed(ghost n: nat, err: int)
      requires TxValid() && outstanding_write_.Some? && n <= outstanding_write_.value
      modifies this`outstanding_write_, this`pending_sends_, this`last_tx_error_, this`closed_, this`tx_log_, this`wire_
      ensures TxValid()
      ensures Sending() == S.WriteFailed(old(Sending()), n, err) && closed_
    {
      hide Circular, S.Inv, S.Abandon;
      WriteInProgress(Sending());
      S.WriteFailedKeepsInv(Sending(), n, err);
      wire_ := wire_ + tx_rb_.View().bytes[..n];
      outstanding_write_ := None;
      HandleSendError(err);
    }

    method Close()
      modifies this`closed_
      ensures closed_
    {
      closed_ := true;
    }

    method HandleSendError(err: int)
      requires tx_rb_.Valid()
      modifies this`pending_sends_, this`last_tx_error_, this`closed_, this`tx_log_
      ensures Sending() == S.Abandon(old(Sending()).(error := Some(err)), err)
      ensures tx_log_.calls == old(tx_log_.calls) && closed_ && last_tx_error_ == Some(err)
    {
      Close();
      last_tx_error_ := Some(err);
      hide Circular, S.Abandon, S.AbandonFirst;
      ghost var s := Sending();
      for i := 0 to |pending_sends_|
        invariant pending_sends_ == s.pending && tx_log_.calls == s.log.calls
        invariant S.Abandon(s.(pending := s.pending[i..], log := tx_log_), err) == S.Abandon(s, err)
      {
        ghost var rest := s.(pending := s.pending[i..], log := tx_log_);
        AbandonOne(rest, err);
        tx_log_ := S.AbandonFirst(rest, err).log;
      }
      pending_sends_ := [];
      AbandonNone(Sending(), err);
    }

    /** One round of that loop, */
    static lemma AbandonOne(s: S.Sender, err: int)
      requires s.pending != []
      ensures var s' := S.AbandonFirst(s, err);
              s' == s.(pending := s.pending[1..], log := s'.log) && s'.log.calls == s.log.calls &&
              S.Abandon(s, err) == S.Abandon(s', err)
    {
    }

    /** and its end. */
    static lemma AbandonNone(s: S.Sender, err: int)
      requires s.pending == []
      ensures S.Abandon(s, err) == s
    {
    }

    // ----- receiving -----

    method Start()
      requires RxValid()
      modifies this`receive_from_transport_running_, this`outstanding_read_, this`started_
      ensures RxValid()
      ensures Receiving() == R.ReadMore(old(Receiving()))
    {
      hide R.Core, R.NothingToDeliver;
      R.StartKeepsInv(Receiving());
      ReceiveSomeBytesFromTransport();
    }

    method ReceiveAsync(msg: array<byte>)
      requires RxValid() && pending_receive_handler_.None?
      requires msg != rx_rb_.data_ && msg != size_field_buffer_
      modifies this`size_field_buffer_size_, this`size_field_, this`size_field_valid_
      modifies this`pending_receive_handler_, this`pending_receive_buffer_, this`receive_calls_
      modifies this`receive_from_transport_running_, this`outstanding_read_, this`started_
      modifies this`last_rx_error_, this`closed_, this`rx_log_
      modifies size_field_buffer_, rx_rb_`read_idx_, msg
      ensures old(closed_) ==> closed_
      ensures RxValid()
      ensures Receiving() == R.ReceiveAsync(old(Receiving()), msg.Length)
      ensures HandedOver(msg, old(rx_log_), rx_log_)
    {
      hide R.Inv, R.Core, R.TryDeliver, R.ReadMore, R.IntakeOk, R.ReceiveAsync, R.Complete, Circular;
      ghost var before := Receiving();
      ReadyForReceive(before);
      R.ReceiveAsyncKeepsInv(before, msg.Length);
      PartsOfReceiveAsync(before, msg.Length);
      StoreReceive(msg);
      if last_rx_error_.Some? {
        FailReceive();
        return;
      }
      TryDeliveringPendingReceive();
      ReceiveSomeBytesFromTransport();
    }

    static ghost function WithReceive(s: R.Receiver, room: nat): R.Receiver {
      s.(awaiting := Some(R.Awaiting(s.log.calls, room)), log := s.log.(calls := s.log.calls + 1))
    }

    static lemma PartsOfReceiveAsync(s: R.Receiver, room: nat)
      requires R.Core(s) && s.awaiting.None?
      ensures R.IntakeOk(s.intake) && (s.error.None? ==> !R.Rejected(s.intake))
      ensures R.ReceiveAsync(s, room) ==
              if s.error.Some? then R.Complete(WithReceive(s, room), R.Outcome.Failed(s.error.value), [])
              else R.ReadMore(R.TryDeliver(WithReceive(s, room)))
    {
      hide R.TryDeliver, R.ReadMore;
    }

    /** ReceiveAsync after an error */
    method FailReceive()
      requires RxShape() && pending_receive_handler_.Some? && last_rx_error_.Some?
      modifies this`pending_receive_handler_, this`rx_log_
      ensures RxShape()
      ensures Receiving() == R.Complete(old(Receiving()), R.Outcome.Failed(last_rx_error_.value), [])
      ensures HandedOver(pending_receive_buffer_, old(rx_log_), rx_log_)
    {
      rx_log_ := R.Complete(Receiving(), R.Outcome.Failed(last_rx_error_.value), []).log;
      pending_receive_handler_ := None;
    }

    method StoreReceive(msg: array<byte>)
      requires RxShape() && pending_receive_handler_.None?
      requires msg != rx_rb_.data_ && msg != size_field_buffer_
      modifies this`pending_receive_handler_, this`pending_receive_buffer_, this`receive_calls_, this`rx_log_
      ensures RxShape() && HeldIntake() == old(HeldIntake()) && pending_receive_buffer_ == msg
      ensures Receiving() == WithReceive(old(Receiving()), msg.Length)
      ensures rx_log_.completions == old(rx_log_.completions)
    {
      pending_receive_buffer_ := msg;
      pending_receive_handler_ := Some(receive_calls_);
      receive_calls_ := receive_calls_ + 1;
      rx_log_ := rx_log_.(calls := rx_log_.calls + 1);
    }

    /** A handler called since `before` finds its data at the start of its buffer. */
    static ghost predicate HandedOver(buffer: array<byte>, before: R.Log, after: R.Log)
      reads buffer
    {
      |after.completions| > |before.completions| ==> after.completions[|after.completions| - 1].data <= buffer[..]
    }

    method CancelReceive()
      requires RxValid()
      modifies this`pending_receive_handler_, this`rx_log_
      ensures RxValid()
      ensures Receiving() == R.CancelReceive(old(Receiving()))
    {
      hide R.Inv;
      R.CancelReceiveKeepsInv(Receiving());
      if pending_receive_handler_.None? {
        return;
      }
      rx_log_ := R.Complete(Receiving(), R.Canceled, []).log;
      pending_receive_handler_ := None;
    }

    /** What a receive step may rely on, and what is kept within it. */
    ghost predicate RxReady()
      reads this`size_field_buffer_size_, this`size_field_, this`size_field_valid_
      reads this`pending_receive_buffer_, this`receive_calls_, this`rx_log_, this`last_rx_error_, this`closed_
      reads size_field_buffer_, rx_rb_, rx_rb_.data_
    {
      RxShape() && R.IntakeOk(HeldIntake())
    }

    /** The function that TryGetReceivedSizeField passes to PopUntil. */
    method OnSizeFieldByte(b: byte) returns (stop: bool)
      requires RxShape() && !size_field_valid_ && size_field_buffer_size_ < MAX_FIELD_LENGTH
      requires pending_receive_handler_.Some?
      modifies this`size_field_buffer_size_, this`size_field_, this`size_field_valid_, size_field_buffer_
      modifies this`pending_receive_handler_, this`last_rx_error_, this`closed_, this`rx_log_
      ensures old(closed_) ==> closed_
      ensures RxShape()
      ensures var header := old(HeldIntake()).header + [b];
              var held := old(HeldIntake()).(header := header, sizeField := Decode(header));
              && Receiving() == R.Checked(old(Receiving()), held)
              && (stop <==> Decode(header).Some? || |header| == MAX_FIELD_LENGTH)
    {
      hide Decode, EndByte, R.Fail;
      ghost var header := HeldIntake().header + [b];
      size_field_buffer_[size_field_buffer_size_] := b;
      size_field_buffer_size_ := size_field_buffer_size_ + 1;
      assert size_field_buffer_[..size_field_buffer_size_] == header;
      var ok, msgSize := DeserializeMsgSizeField(size_field_buffer_, size_field_buffer_size_);
      if ok {
        size_field_ := msgSize;
        size_field_valid_ := true;
        if size_field_ > rx_rb_.capacity_ {
          HandleReceiveError(R.DeserializeMsgFailed);
        }
        return true;
      } else if size_field_buffer_size_ >= size_field_buffer_.Length {
        HandleReceiveError(R.DeserializeMsgFailed);
        return true;
      }
      return false;
    }

    method TryGetReceivedSizeField() returns (ok: bool, msgSize: nat)
      requires RxReady() && !R.Rejected(HeldIntake()) && pending_receive_handler_.Some?
      modifies this`size_field_buffer_size_, this`size_field_, this`size_field_valid_, size_field_buffer_
      modifies this`pending_receive_handler_, this`last_rx_error_, this`closed_, this`rx_log_, rx_rb_`read_idx_
      ensures old(closed_) ==> closed_
      ensures RxShape()
      ensures Receiving() == R.Scan(old(Receiving()))
      ensures ok == HeldIntake().sizeField.Some? && (ok ==> HeldIntake().sizeField.value == msgSize)
    {
      if size_field_valid_ {
        return true, size_field_;
      }
      PopSizeField();
      ok, msgSize := size_field_valid_, size_field_;
    }

    /** The call of PopUntil */
    method PopSizeField()
      requires RxReady() && !R.Rejected(HeldIntake()) && pending_receive_handler_.Some? && !size_field_valid_
      modifies this`size_field_buffer_size_, this`size_field_, this`size_field_valid_, size_field_buffer_
      modifies this`pending_receive_handler_, this`last_rx_error_, this`closed_, this`rx_log_, rx_rb_`read_idx_
      ensures old(closed_) ==> closed_
      ensures RxShape()
      ensures Receiving() == R.Scan(old(Receiving()))
    {
      hide ScanStands, Upto, LockFreeRingBuffer.Popped, R.IntakeOk, R.Acquire, R.Checked, R.Scan, Circular;
      ghost var before, i0 := Receiving(), HeldIntake();
      var ri := PopUntilSizeField();
      ScanDone(before, size_field_buffer_size_);
      rx_rb_.StoreReadIndex(ri, size_field_buffer_size_ - |i0.header|);
    }

    /** The loop of PopUntil; the read index it arrives at is still to be stored. */
    method PopUntilSizeField() returns (ri: nat)
      requires RxReady() && !R.Rejected(HeldIntake()) && pending_receive_handler_.Some? && !size_field_valid_
      modifies this`size_field_buffer_size_, this`size_field_, this`size_field_valid_, size_field_buffer_
      modifies this`pending_receive_handler_, this`last_rx_error_, this`closed_, this`rx_log_
      ensures old(closed_) ==> closed_
      ensures RxShape() && rx_rb_.View() == old(rx_rb_.View())
      ensures var s, n := old(Receiving()), size_field_buffer_size_;
              && (ScanStands(s, n, true) || (ScanStands(s, n, false) && n == |R.Undelivered(s.intake)|))
              && rx_rb_.Popped(ri, n - |s.intake.header|)
              && Receiving() == R.Checked(s, Upto(s.intake, n))
    {
      hide ScanStands, Upto, LockFreeRingBuffer.Popped, R.Inv, R.IntakeOk, R.Checked, Circular;
      ghost var before, n := Receiving(), size_field_buffer_size_;
      ri := rx_rb_.read_idx_;
      var stop := false;
      StartOfScan(before);
      rx_rb_.NothingPopped();
      ScanBounds(before, n, false);
      rx_rb_.PoppingIndex(ri, 0);
      while !stop && rx_rb_.AvailableForReadAt(rx_rb_.write_idx_, ri) > 0
        invariant RxShape() && rx_rb_.View() == before.intake.ring && n == size_field_buffer_size_
        invariant old(closed_) ==> closed_
        invariant |before.intake.header| <= n <= |R.Undelivered(before.intake)| && ScanStands(before, n, stop)
        invariant ri < rx_rb_.data_.Length && rx_rb_.Popped(ri, n - |before.intake.header|)
        invariant Receiving() == R.Checked(before, Upto(before.intake, n))
        decreases |R.Undelivered(before.intake)| - n
      {
        rx_rb_.PoppingIndex(ri, n - |before.intake.header|);
        ri, stop := PopSizeFieldByte(ri, before, n);
        n := n + 1;
        ScanBounds(before, n, stop);
      }
      rx_rb_.PoppingIndex(ri, n - |before.intake.header|);
    }

    /** Scanning from state `s` on, `n` bytes are held and no byte before the last ended the field. */
    static ghost predicate ScanStands(s: R.Receiver, n: nat, stop: bool) {
      && |s.intake.header| <= n <= |R.Undelivered(s.intake)| && n <= MAX_FIELD_LENGTH
      && (stop <==> Upto(s.intake, n).sizeField.Some? || n == MAX_FIELD_LENGTH)
      && (n > |s.intake.header| ==> EndByte(R.Undelivered(s.intake)[..n - 1]) == n - 1)
    }

    static lemma ScanBounds(s: R.Receiver, n: nat, stop: bool)
      requires ScanStands(s, n, stop)
      ensures |s.intake.header| <= n <= |R.Undelivered(s.intake)|
    {
    }

    /** One round of that loop. */
    method PopSizeFieldByte(ri: nat, ghost before: R.Receiver, ghost n: nat) returns (ri': nat, stop: bool)
      requires RxShape() && ScanStands(before, n, false) && n < |R.Undelivered(before.intake)|
      requires before.intake.ring == rx_rb_.View() && before.awaiting.Some?
      requires n == size_field_buffer_size_
      requires Receiving() == R.Checked(before, Upto(before.intake, n))
      requires rx_rb_.Popped(ri, n - |before.intake.header|)
      modifies this`size_field_buffer_size_, this`size_field_, this`size_field_valid_, size_field_buffer_
      modifies this`pending_receive_handler_, this`last_rx_error_, this`closed_, this`rx_log_
      ensures old(closed_) ==> closed_
      ensures RxShape() && rx_rb_.View() == old(rx_rb_.View())
      ensures size_field_buffer_size_ == n + 1 && ScanStands(before, n + 1, stop)
      ensures Receiving() == R.Checked(before, Upto(before.intake, n + 1))
      ensures ri' < rx_rb_.data_.Length && rx_rb_.Popped(ri', n + 1 - |before.intake.header|)
    {
      hide Decode, EndByte, R.Checked, Circular;
      rx_rb_.PoppingIndex(ri, n - |before.intake.header|);
      OneByteMore(before, n);
      var b := rx_rb_.data_[ri];
      ri' := rx_rb_.NextIndex(ri);
      stop := OnSizeFieldByte(b);
      rx_rb_.PoppingIndex(ri', n + 1 - |before.intake.header|);
    }

    /** The intake once the first `n` undelivered bytes are held, the ring not yet being updated. */
    static ghost function Upto(i: R.Intake, n: nat): R.Intake
      requires n <= |R.Undelivered(i)|
    {
      i.(header := R.Undelivered(i)[..n], sizeField := Decode(R.Undelivered(i)[..n]))
    }

    static lemma ScanDone(s: R.Receiver, n: nat)
      requires R.IntakeOk(s.intake) && !R.Rejected(s.intake) && s.intake.sizeField.None?
      requires ScanStands(s, n, true) || (ScanStands(s, n, false) && n == |R.Undelivered(s.intake)|)
      ensures |s.intake.header| <= n <= |R.Undelivered(s.intake)|
      ensures var i := Upto(s.intake, n).(ring := s.intake.ring.Drop(n - |s.intake.header|));
              R.Scan(s) == R.Checked(s, Upto(s.intake, n)).(intake := i)
    {
      hide Decode, EndByte, ScanHeader, R.Acquire;
      R.AcquireByBytes(s.intake, n);
    }

    static lemma StartOfScan(s: R.Receiver)
      requires R.IntakeOk(s.intake) && !R.Rejected(s.intake) && s.intake.sizeField.None?
      ensures ScanStands(s, |s.intake.header|, false)
      ensures R.Checked(s, Upto(s.intake, |s.intake.header|)) == s
    {
      assert R.Undelivered(s.intake)[..|s.intake.header|] == s.intake.header;
      DecodeSome(0, s.intake.header);
    }

    static lemma OneByteMore(s: R.Receiver, n: nat)
      requires |s.intake.header| <= n < |R.Undelivered(s.intake)| && n < MAX_FIELD_LENGTH
      requires Upto(s.intake, n).sizeField.None?
      ensures var i := Upto(s.intake, n);
              var s' := R.Checked(s, i);
              var header := i.header + [s.intake.ring.bytes[n - |s.intake.header|]];
              && s'.intake == i && s'.awaiting == s.awaiting && EndByte(i.header) == n
              && i.(header := header, sizeField := Decode(header)) == Upto(s.intake, n + 1)
              && R.Checked(s', Upto(s.intake, n + 1)) == R.Checked(s, Upto(s.intake, n + 1))
    {
      hide EndByte;
      var stream := R.Undelivered(s.intake);
      assert stream[..n] + [s.intake.ring.bytes[n - |s.intake.header|]] == stream[..n + 1];
      DecodeSome(0, stream[..n]);
    }

    method HandleReceiveError(err: R.Failure)
      requires RxShape()
      modifies this`pending_receive_handler_, this`last_rx_error_, this`closed_, this`rx_log_
      ensures RxShape() && HeldIntake() == old(HeldIntake()) && closed_
      ensures Receiving() == R.Fail(old(Receiving()), err)
    {
      ghost var before := Receiving();
      Close();
      last_rx_error_ := Some(err);
      if pending_receive_handler_.Some? {
        rx_log_ := R.Fail(before, err).log;
        pending_receive_handler_ := None;
      }
    }

    method ReceiveSomeBytesFromTransport()
      requires RxShape()
      modifies this`receive_from_transport_running_, this`outstanding_read_, this`started_
      ensures Receiving() == R.ReadMore(old(Receiving()))
    {
      if receive_from_transport_running_ {
        return;
      }
      receive_from_transport_running_ := true;
      started_ := true;
      outstanding_read_ := Some(rx_rb_.FirstWriteArray().1);
    }

    static lemma ReadyForReceive(s: R.Receiver)
      requires R.Inv(s)
      ensures R.Core(s) && R.IntakeOk(s.intake) && (s.error.None? ==> !R.Rejected(s.intake))
      ensures s.awaiting.Some? ==> s.error.None?
      ensures s.outstanding.Some? ==> s.outstanding.value <= s.intake.ring.FirstWriteLength()
    {
    }

    method TryDeliveringPendingReceive()
      requires RxReady() && (pending_receive_handler_.Some? ==> !R.Rejected(HeldIntake()))
      modifies this`size_field_buffer_size_, this`size_field_, this`size_field_valid_, size_field_buffer_
      modifies this`pending_receive_handler_, this`last_rx_error_, this`closed_, this`rx_log_
      modifies rx_rb_`read_idx_, pending_receive_buffer_
      ensures old(closed_) ==> closed_
      ensures RxShape()
      ensures Receiving() == R.TryDeliver(old(Receiving()))
      ensures HandedOver(pending_receive_buffer_, old(rx_log_), rx_log_)
    {
      if pending_receive_handler_.None? {
        return;
      }
      hide R.Scan, R.TryDeliver, R.IntakeOk, R.Deliver, Circular;
      PartsOfTryDeliver(Receiving());
      var ok, size := TryGetReceivedSizeField();
      DeliverIfComplete(ok, size);
    }

    static lemma PartsOfTryDeliver(s: R.Receiver)
      requires s.awaiting.Some? && R.IntakeOk(s.intake) && !R.Rejected(s.intake)
      ensures var s' := R.Scan(s);
              && s'.intake.ring.Valid() && s'.log.completions[..|s.log.completions|] == s.log.completions
              && |s'.log.completions| >= |s.log.completions|
              && (R.Deliverable(s'.intake) ==> s'.awaiting.Some? && s'.log == s.log)
              && R.TryDeliver(s) == if R.Deliverable(s'.intake) then R.Deliver(s') else s'
      ensures !R.Deliverable(R.Scan(s).intake) && R.Scan(s).log.completions != s.log.completions ==>
                var cs := R.Scan(s).log.completions; cs[|cs| - 1].data == []
    {
      hide R.Acquire, R.Deliver, ScanHeader, EndByte;
    }

    method DeliverIfComplete(ok: bool, size: nat)
      requires RxShape() && ok == HeldIntake().sizeField.Some? && (ok ==> HeldIntake().sizeField == Some(size))
      requires R.Deliverable(HeldIntake()) ==> pending_receive_handler_.Some?
      modifies this`size_field_buffer_size_, this`size_field_valid_
      modifies this`pending_receive_handler_, this`rx_log_, rx_rb_`read_idx_, pending_receive_buffer_
      ensures RxShape()
      ensures Receiving() == var s := old(Receiving()); if R.Deliverable(s.intake) then R.Deliver(s) else s
      ensures if R.Deliverable(old(HeldIntake())) then HandedOver(pending_receive_buffer_, old(rx_log_), rx_log_)
              else rx_log_ == old(rx_log_)
    {
      hide R.Deliver, Circular;
      if !ok || rx_rb_.AvailableForRead() < size {
        return;
      }
      DeliverSize(size);
    }

    /** The rest of TryDeliveringPendingReceive: the whole message is in the ring. */
    method DeliverSize(size: nat)
      requires RxShape() && pending_receive_handler_.Some?
      requires HeldIntake().sizeField == Some(size) && size <= |rx_rb_.View().bytes|
      modifies this`size_field_buffer_size_, this`size_field_valid_
      modifies this`pending_receive_handler_, this`rx_log_, rx_rb_`read_idx_, pending_receive_buffer_
      ensures RxShape()
      ensures Receiving() == R.Deliver(old(Receiving()))
      ensures HandedOver(pending_receive_buffer_, old(rx_log_), rx_log_)
    {
      hide Circular, R.Deliver;
      ghost var before := Receiving();
      DeliveredParts(before);
      pending_receive_handler_ := None;
      ResetReceivedSizeField();
      var n := ReadIntoBuffer(size);
      rx_log_ := R.Deliver(before).log;
      assert pending_receive_buffer_[..n] <= pending_receive_buffer_[..];
    }

    /** What a delivery changes, and the data it hands over */
    static lemma DeliveredParts(s: R.Receiver)
      requires s.awaiting.Some? && s.intake.ring.Valid() && R.Deliverable(s.intake)
      ensures var s', size, cs := R.Deliver(s), s.intake.sizeField.value, R.Deliver(s).log.completions;
              && s' == s.(awaiting := None, intake := R.Intake(s.intake.ring.Drop(size), [], None), log := s'.log)
              && s'.log.calls == s.log.calls && |cs| == |s.log.completions| + 1
              && cs[|cs| - 1].data == s.intake.ring.bytes[..Min(size, s.awaiting.value.room)]
    {
    }

    method ReadIntoBuffer(size: nat) returns (n: nat)
      requires RxShape() && size <= |rx_rb_.View().bytes|
      modifies rx_rb_`read_idx_, pending_receive_buffer_
      ensures RxShape()
      ensures n == Min(size, pending_receive_buffer_.Length)
      ensures pending_receive_buffer_[..n] == old(rx_rb_.View()).bytes[..n]
      ensures rx_rb_.View() == old(rx_rb_.View()).Drop(size)
    {
      hide Circular;
      DropTwice(rx_rb_.View(), Min(size, pending_receive_buffer_.Length), size);
      n := Min(size, pending_receive_buffer_.Length);
      var read := rx_rb_.Read(pending_receive_buffer_, n);
      if n < size {
        var discarded := rx_rb_.Discard(size - n);
      }
    }

    static lemma DropTwice(r: Ring, n: nat, size: nat)
      requires r.Valid() && n <= size <= |r.bytes|
      ensures r.Drop(n).Valid() && r.Drop(n).Drop(size - n) == r.Drop(size)
      ensures n == size ==> r.Drop(n) == r.Drop(size)
    {
    }

    method ResetReceivedSizeField()
      modifies this`size_field_buffer_size_, this`size_field_valid_
      ensures size_field_buffer_size_ == 0 && !size_field_valid_
    {
      size_field_buffer_size_ := 0;
      size_field_valid_ := false;
    }

    /** `chunk` is what the transport put into the piece of the ring it was given. */
    method OnReceiveCompleted(chunk: seq<byte>)
      requires RxValid() && outstanding_read_.Some? && |chunk| <= outstanding_read_.value
      modifies this`size_field_buffer_size_, this`size_field_, this`size_field_valid_, size_field_buffer_
      modifies this`pending_receive_handler_, this`last_rx_error_, this`closed_, this`rx_log_, pending_receive_buffer_
      modifies this`receive_from_transport_running_, this`outstanding_read_, this`started_, rx_rb_, rx_rb_.data_
      ensures old(closed_) ==> closed_
      ensures RxValid()
      ensures Receiving() == R.ReadCompleted(old(Receiving()), chunk)
      ensures HandedOver(pending_receive_buffer_, old(rx_log_), rx_log_)
    {
      hide R.Inv, R.Core, R.TryDeliver, Circular;
      ghost var before := Receiving();
      ReadyForReceive(before);
      R.ReadCompletedKeepsInv(before, chunk);
      CommittedIsReady(before, chunk);
      CommitChunk(chunk);
      TryDeliveringPendingReceive();
      if !rx_rb_.Full() {
        ReceiveSomeBytesFromTransport();
      }
    }

    static lemma CommittedIsReady(s: R.Receiver, chunk: seq<byte>)
      requires R.Inv(s) && |chunk| <= s.intake.ring.Free()
      ensures var s' := R.Commit(s, chunk);
              R.IntakeOk(s'.intake) && (s'.awaiting.Some? ==> !R.Rejected(s'.intake))
    {
      hide ScanHeader, EndByte, R.LogOk;
    }

    method CommitChunk(chunk: seq<byte>)
      requires RxShape() && |chunk| <= rx_rb_.FirstWriteArray().1
      modifies this`rx_log_, this`receive_from_transport_running_, this`outstanding_read_, rx_rb_, rx_rb_.data_
      ensures RxShape() && Receiving() == R.Commit(old(Receiving()), chunk)
      ensures rx_log_.completions == old(rx_log_.completions)
    {
      rx_rb_.Fill(chunk);
      rx_rb_.CommitFirstWriteArray(|chunk|);
      rx_log_ := rx_log_.(received := rx_log_.received + chunk);
      receive_from_transport_running_ := false;
      outstanding_read_ := None;
    }

    method OnReceiveFailed(code: int)
      requires RxValid() && outstanding_read_.Some?
      modifies this`outstanding_read_, this`pending_receive_handler_, this`last_rx_error_, this`closed_, this`rx_log_
      ensures RxValid()
      ensures Receiving() == R.ReadFailed(old(Receiving()), R.TransportFailure(code)) && closed_
    {
      hide R.Inv, R.Fail;
      R.ReadFailedKeepsInv(Receiving(), code);
      outstanding_read_ := None;
      HandleReceiveError(R.TransportFailure(code));
    }
  }
}
