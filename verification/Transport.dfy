/** Transport: SendAllAsync and ReceiveAllAsync repeat transfers of at most a set number of bytes
    until everything has been transferred or something fails, and then call the handler. */
module Transport {
  import opened Common

  datatype Error = Canceled | Timeout | Other(code: int)

  datatype Result = Success | Failure(error: Error)

  /** How the transport below answers a request: with an error code or none, and the bytes that were
      transferred in any case; `gone` if the transport object no longer exists then. */
  datatype Answer = Answer(error: Option<int>, chunk: seq<byte>, timedOut: bool, gone: bool)

  /** The result that the handler of a single transfer is given */
  function Seen(a: Answer): Result {
    if a.gone then Failure(Canceled)
    else if a.timedOut then Failure(Timeout)
    else if a.error.Some? then Failure(Other(a.error.value))
    else Success
  }

  /** The failure that an answer is: a transport that is gone cannot tell of anything else, and one
      that timed out reports that whatever the answer. */
  ghost predicate Fault(a: Answer, e: Error) {
    match e
    case Canceled => a.gone
    case Timeout => !a.gone && a.timedOut
    case Other(code) => !a.gone && !a.timedOut && a.error == Some(code)
  }

  ghost predicate Faultless(a: Answer) {
    !a.gone && !a.timedOut && a.error.None?
  }

  /** A request for everything: the bytes transferred so far, and what its handler has been given */
  datatype Transfer = Transfer(size: nat, moved: seq<byte>, outcome: Option<Result>) {
    function Rest(): nat
      requires |moved| <= size
    {
      size - |moved|
    }
  }

  function Begin(size: nat): Transfer {
    Transfer(size, [], None)
  }

  /** What is asked of the transport below: never nothing, and never more than the limit */
  function Asked(t: Transfer, limit: nat): nat
    requires |t.moved| <= t.size
  {
    Min(t.Rest(), limit)
  }

  /** A request for at least one byte that does not fail transfers at least one byte. */
  ghost predicate Possible(t: Transfer, a: Answer, limit: nat) {
    |t.moved| <= t.size && |a.chunk| <= Asked(t, limit) && (a.error.None? ==> |a.chunk| > 0)
  }

  function Step(t: Transfer, a: Answer): Transfer {
    if t.outcome.Some? then t
    else
      var moved := t.moved + a.chunk;
      if Seen(a).Success? && |moved| < t.size then t.(moved := moved)
      else t.(moved := moved, outcome := Some(Seen(a)))
  }

  // ----- runs -----

  function Run(t: Transfer, answers: seq<Answer>): Transfer
    decreases |answers|
  {
    if answers == [] then t else Run(Step(t, answers[0]), answers[1..])
  }

  ghost predicate PossibleRun(t: Transfer, answers: seq<Answer>, limit: nat)
    decreases |answers|
  {
    || answers == []
    || t.outcome.Some?
    || (Possible(t, answers[0], limit) && PossibleRun(Step(t, answers[0]), answers[1..], limit))
  }

  /** Success means that everything has been transferred, and everything transferred without a
      failure means success; as long as the handler has not been called, something is left. */
  ghost predicate Right(t: Transfer) {
    && |t.moved| <= t.size
    && (t.outcome.None? ==> |t.moved| < t.size)
    && (t.outcome == Some(Success) ==> |t.moved| == t.size)
  }

  lemma {:induction false} RunIsRight(t: Transfer, answers: seq<Answer>, limit: nat)
    requires Right(t) && PossibleRun(t, answers, limit)
    ensures Right(Run(t, answers)) && t.moved <= Run(t, answers).moved
    ensures t.outcome.Some? ==> Run(t, answers) == t
    decreases |answers|
  {
    if answers != [] {
      if t.outcome.Some? {
        RunEnded(t, answers);
      } else {
        RunIsRight(Step(t, answers[0]), answers[1..], limit);
      }
    }
  }

  /** The handler is called once: nothing changes any more after that. */
  lemma {:induction false} RunEnded(t: Transfer, answers: seq<Answer>)
    requires t.outcome.Some?
    ensures Run(t, answers) == t
  {
    if answers != [] {
      RunEnded(t, answers[1..]);
    }
  }

  /** The handler is given the first failure, if one comes before the last byte, and success
      otherwise. */
  ghost predicate FailsAt(t: Transfer, answers: seq<Answer>, k: nat)
    requires k < |answers|
  {
    && !Faultless(answers[k])
    && (forall i :: 0 <= i < k ==> Faultless(answers[i]))
    && |Run(t, answers[..k]).moved| < t.size
  }

  lemma {:induction false} FirstFailureDecides(t: Transfer, answers: seq<Answer>, e: Error)
    requires t.outcome.None? && |t.moved| < t.size
    ensures Run(t, answers).outcome == Some(Failure(e)) <==>
            exists k :: 0 <= k < |answers| && FailsAt(t, answers, k) && Fault(answers[k], e)
    decreases |answers|
  {
    if answers != [] {
      var t', others := Step(t, answers[0]), answers[1..];
      if t'.outcome.Some? {
        RunEnded(t', others);
        forall k | 0 < k < |answers|
          ensures !FailsAt(t, answers, k)
        {
          RunFirst(t, answers, k);
          RunEnded(t', answers[..k][1..]);
        }
        assert answers[..0] == [];
        assert !Faultless(answers[0]) ==> FailsAt(t, answers, 0);
      } else {
        FirstFailureDecides(t', others, e);
        forall k | 0 < k < |answers|
          ensures FailsAt(t, answers, k) <==> FailsAt(t', others, k - 1)
        {
          RunFirst(t, answers, k);
          FailsLater(t, answers, k);
        }
      }
    }
  }

  lemma RunFirst(t: Transfer, answers: seq<Answer>, k: nat)
    requires 0 < k <= |answers|
    ensures Run(t, answers[..k]) == Run(Step(t, answers[0]), answers[1..][..k - 1])
    ensures answers[..k][1..] == answers[1..][..k - 1]
  {
    assert answers[..k][1..] == answers[1..][..k - 1];
  }

  lemma FailsLater(t: Transfer, answers: seq<Answer>, k: nat)
    requires 0 < k < |answers| && t.outcome.None? && Step(t, answers[0]).outcome.None?
    requires Run(t, answers[..k]) == Run(Step(t, answers[0]), answers[1..][..k - 1])
    ensures FailsAt(t, answers, k) <==> FailsAt(Step(t, answers[0]), answers[1..], k - 1)
  {
    assert (forall i :: 0 <= i < k ==> Faultless(answers[i])) <==>
           (forall i :: 0 <= i < k - 1 ==> Faultless(answers[1..][i])) by {
      assert forall i :: 0 <= i < k - 1 ==> answers[1..][i] == answers[i + 1];
      assert forall i :: 0 < i < k ==> answers[i] == answers[1..][i - 1];
    }
  }

  /** Without a failure, it takes at most as many transfers as there are bytes. */
  lemma {:induction false} EndsInTime(t: Transfer, answers: seq<Answer>, limit: nat)
    requires Right(t) && PossibleRun(t, answers, limit)
    requires forall i :: 0 <= i < |answers| ==> Faultless(answers[i])
    requires t.outcome.None? ==> |answers| >= t.Rest()
    requires t.outcome.Some? ==> t.outcome == Some(Success)
    ensures Run(t, answers).outcome == Some(Success)
    decreases |answers|
  {
    if t.outcome.Some? {
      RunEnded(t, answers);
    } else {
      EndsInTime(Step(t, answers[0]), answers[1..], limit);
    }
  }

  lemma {:induction false} RunConcat(t: Transfer, a: seq<Answer>, b: seq<Answer>)
    ensures Run(t, a + b) == Run(Run(t, a), b)
    decreases |a|
  {
    if a == [] {
      assert a + b == b;
    } else {
      assert (a + b)[1..] == a[1..] + b;
      RunConcat(Step(t, a[0]), a[1..], b);
    }
  }

  /** A transfer that is still in progress when the timeout strikes ends with it at its next answer,
      even one that brings the last bytes, and nothing that comes later changes that. */
  lemma TimeoutEnds(t: Transfer, before: seq<Answer>, a: Answer, later: seq<Answer>)
    requires Run(t, before).outcome.None? && a.timedOut && !a.gone
    ensures Run(t, before + [a] + later).outcome == Some(Failure(Timeout))
    ensures Run(t, before + [a] + later).moved == Run(t, before).moved + a.chunk
  {
    var t' := Run(t, before);
    assert [a][1..] == [];
    assert Run(t', [a]) == Step(t', a);
    RunConcat(t, before, [a]);
    RunConcat(t, before + [a], later);
    RunEnded(Step(t', a), later);
  }

  // ----- the transport -----

  class Transport {
    const transceive_byte_limit_: nat
    var timed_out_: bool
    var closed: bool

    /** A SendAll in progress: the data its callback still holds, and the buffer handed to
        WriteSomeAsync */
    var sending: Option<seq<byte>>
    var writing: seq<byte>
    ghost var data: seq<byte>
    ghost var tx: Transfer

    /** A ReceiveAll in progress: its buffer, where its callback goes on, and how much was asked
        of ReadSomeAsync */
    var receiving: Option<nat>
    var reading: nat
    var buffer: array<byte>
    ghost var rx: Transfer

    ghost predicate SendValid()
      reads this
    {
      && transceive_byte_limit_ > 0 && Right(tx) && tx.size == |data| && tx.moved <= data
      && (sending.Some? <==> tx.outcome.None?)
      && (sending.Some? ==>
            && sending.value == data[|tx.moved|..]
            && writing == sending.value[..Asked(tx, transceive_byte_limit_)])
    }

    ghost predicate ReceiveValid()
      reads this, buffer
    {
      && transceive_byte_limit_ > 0 && Right(rx) && rx.size == buffer.Length && buffer[..|rx.moved|] == rx.moved
      && (receiving.Some? <==> rx.outcome.None?)
      && (receiving.Some? ==> receiving.value == |rx.moved| && reading == Asked(rx, transceive_byte_limit_))
    }

    constructor (limit: nat)
      requires limit > 0
      ensures SendValid() && ReceiveValid() && sending.None? && receiving.None?
      ensures !timed_out_ && !closed && transceive_byte_limit_ == limit && fresh(buffer)
    {
      transceive_byte_limit_ := limit;
      timed_out_, closed := false, false;
      sending, writing, data, tx := None, [], [], Transfer(0, [], Some(Success));
      receiving, reading, buffer, rx := None, 0, new byte[0], Transfer(0, [], Some(Success));
    }

    method OnTimeout()
      modifies this`timed_out_, this`closed
      ensures timed_out_ && closed
    {
      timed_out_ := true;
      Close();
    }

    method Close()
      modifies this`closed
      ensures closed
    {
      closed := true;
    }

    /** What SendSomeAsync and ReceiveSomeAsync make of an answer */
    method Answered(error: Option<int>, gone: bool) returns (res: Result)
      modifies this`closed
      ensures gone <==> res == Failure(Canceled)
      ensures !gone && timed_out_ <==> res == Failure(Timeout)
      ensures forall code :: !gone && !timed_out_ && error == Some(code) <==> res == Failure(Other(code))
      ensures !gone && !timed_out_ && error.None? <==> res == Success
      ensures closed == (old(closed) || (!gone && !timed_out_ && error.Some?))
    {
      if gone {
        return Failure(Canceled);
      }
      if timed_out_ {
        return Failure(Timeout);
      }
      if error.Some? {
        Close();
        return Failure(Other(error.value));
      }
      res := Success;
    }

    method SendSomeAsync(some: seq<byte>)
      requires |some| > 0
      modifies this`writing
      ensures writing == some[..Min(|some|, transceive_byte_limit_)]
    {
      writing := some;
      if |writing| > transceive_byte_limit_ {
        writing := some[..transceive_byte_limit_];
      }
    }

    method SendAllAsync(all: seq<byte>)
      requires SendValid() && sending.None? && |all| > 0
      modifies this`sending, this`writing, this`data, this`tx
      ensures SendValid() && sending.Some? && data == all && tx == Begin(|all|)
    {
      data, tx := all, Begin(|all|);
      SendAllAsyncImpl(all, Success, 0);
    }

    /** The data a callback holds, and the result and number of bytes it was called with */
    method SendAllAsyncImpl(all: seq<byte>, res: Result, bytesWritten: nat)
      requires |all| > 0 && bytesWritten <= |all|
      modifies this`sending, this`writing
      ensures sending == if res.Success? && bytesWritten < |all| then Some(all[bytesWritten..]) else None
      ensures sending.Some? ==> writing == sending.value[..Min(|sending.value|, transceive_byte_limit_)]
    {
      if res.Success? && bytesWritten < |all| {
        sending := Some(all[bytesWritten..]);
        SendSomeAsync(all[bytesWritten..]);
      } else {
        sending := None;
      }
    }

    /** The transport below has written the first `n` bytes it was handed. */
    method OnWritten(error: Option<int>, n: nat, gone: bool)
      requires SendValid() && sending.Some? && n <= |writing| && (error.None? ==> n > 0)
      modifies this`sending, this`writing, this`tx, this`closed
      ensures SendValid() && data == old(data)
      ensures tx == Step(old(tx), Answer(error, old(writing)[..n], timed_out_, gone))
      ensures tx.moved == data[..|old(tx.moved)| + n]
      ensures gone <==> tx.outcome == Some(Failure(Canceled))
      ensures !gone && timed_out_ <==> tx.outcome == Some(Failure(Timeout))
      ensures forall code :: !gone && !timed_out_ && error == Some(code) <==> tx.outcome == Some(Failure(Other(code)))
      ensures !gone && !timed_out_ && error.None? && tx.moved == data <==> tx.outcome == Some(Success)
      ensures closed == (old(closed) || (!gone && !timed_out_ && error.Some?))
    {
      ghost var a := Answer(error, writing[..n], timed_out_, gone);
      var res := Answered(error, gone);
      tx := Step(tx, a);
      SendAllAsyncImpl(sending.value, res, n);
    }

    method ReceiveSomeAsync(size: nat)
      requires size > 0
      modifies this`reading
      ensures reading == Min(size, transceive_byte_limit_)
    {
      reading := size;
      if reading > transceive_byte_limit_ {
        reading := transceive_byte_limit_;
      }
    }

    method ReceiveAllAsync(into: array<byte>)
      requires ReceiveValid() && receiving.None? && into.Length > 0
      modifies this`receiving, this`reading, this`buffer, this`rx
      ensures ReceiveValid() && receiving.Some? && buffer == into && rx == Begin(into.Length)
    {
      buffer, rx := into, Begin(into.Length);
      ReceiveAllAsyncImpl(0, Success, 0);
    }

    /** As SendAllAsyncImpl, for the part of the buffer from `at` on */
    method ReceiveAllAsyncImpl(at: nat, res: Result, bytesRead: nat)
      requires at < buffer.Length && at + bytesRead <= buffer.Length
      modifies this`receiving, this`reading
      ensures receiving == if res.Success? && at + bytesRead < buffer.Length then Some(at + bytesRead) else None
      ensures receiving.Some? ==> reading == Min(buffer.Length - receiving.value, transceive_byte_limit_)
    {
      if res.Success? && bytesRead < buffer.Length - at {
        receiving := Some(at + bytesRead);
        ReceiveSomeAsync(buffer.Length - (at + bytesRead));
      } else {
        receiving := None;
      }
    }

    /** The transport below has read `chunk` into the buffer. */
    method OnRead(error: Option<int>, chunk: seq<byte>, gone: bool)
      requires ReceiveValid() && receiving.Some? && |chunk| <= reading && (error.None? ==> |chunk| > 0)
      modifies this`receiving, this`reading, this`rx, this`closed, buffer
      ensures ReceiveValid() && buffer == old(buffer)
      ensures rx == Step(old(rx), Answer(error, chunk, timed_out_, gone))
      ensures rx.moved == old(rx.moved) + chunk && buffer[..|rx.moved|] == rx.moved
      ensures gone <==> rx.outcome == Some(Failure(Canceled))
      ensures !gone && timed_out_ <==> rx.outcome == Some(Failure(Timeout))
      ensures forall code :: !gone && !timed_out_ && error == Some(code) <==> rx.outcome == Some(Failure(Other(code)))
      ensures !gone && !timed_out_ && error.None? && |rx.moved| == buffer.Length <==> rx.outcome == Some(Success)
      ensures closed == (old(closed) || (!gone && !timed_out_ && error.Some?))
    {
      var at := receiving.value;
      forall i | 0 <= i < |chunk| {
        buffer[at + i] := chunk[i];
      }
      assert buffer[..at + |chunk|] == rx.moved + chunk;
      ghost var a := Answer(error, chunk, timed_out_, gone);
      var res := Answered(error, gone);
      rx := Step(rx, a);
      ReceiveAllAsyncImpl(at, res, |chunk|);
    }
  }
}
