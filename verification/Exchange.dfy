/** A SendAllAsync on one side and a ReceiveAllAsync on the other, joined by a reliable byte stream:
    what one has written is what the other can read, in order, each in pieces of its own. */
module Exchange {
  import opened Common
  import opened Transport

  /** `data` is sent; the two limits are the byte limits of the two transports. */
  datatype Exchange = Exchange(data: seq<byte>, txLimit: nat, rxLimit: nat, tx: Transfer, rx: Transfer)

  /** The next answer to one of the two sides: how many bytes were transferred, and what else
      happened */
  datatype Event = Written(n: nat, trouble: Trouble) | Read(n: nat, trouble: Trouble)

  datatype Trouble = Trouble(error: Option<int>, timedOut: bool, gone: bool)

  const FINE := Trouble(None, false, false)

  /** The receiver has a buffer of `size` bytes. */
  function Start(data: seq<byte>, size: nat, txLimit: nat, rxLimit: nat): Exchange {
    Exchange(data, txLimit, rxLimit, Begin(|data|), Begin(size))
  }

  ghost predicate Inv(x: Exchange) {
    && x.txLimit > 0 && x.rxLimit > 0
    && Right(x.tx) && x.tx.size == |x.data| && x.tx.moved <= x.data
    && Right(x.rx) && x.rx.moved <= x.tx.moved
  }

  function InFlight(x: Exchange): seq<byte>
    requires x.rx.moved <= x.tx.moved
  {
    x.tx.moved[|x.rx.moved|..]
  }

  function AnswerOf(t: Trouble, chunk: seq<byte>): Answer {
    Answer(t.error, chunk, t.timedOut, t.gone)
  }

  /** The sender's transport takes the next bytes of the data, the receiver's gives the next of
      those in flight; as long as there is no error it is at least one. */
  ghost predicate Enabled(x: Exchange, e: Event)
    requires Inv(x)
  {
    && (e.trouble.error.None? ==> e.n > 0)
    && match e
       case Written(n, _) => x.tx.outcome.None? && n <= Asked(x.tx, x.txLimit)
       case Read(n, _) => x.rx.outcome.None? && n <= Asked(x.rx, x.rxLimit) && n <= |InFlight(x)|
  }

  /** The state after an event; events that are not enabled do not happen. */
  ghost function Next(x: Exchange, e: Event): (x': Exchange)
    requires Inv(x)
    ensures Inv(x') && x'.data == x.data && x'.rx.size == x.rx.size
  {
    if !Enabled(x, e) then x
    else
      match e
      case Written(n, trouble) => StepSend(x, n, AnswerOf(trouble, x.data[|x.tx.moved|..][..n]))
      case Read(n, trouble) => StepReceive(x, n, AnswerOf(trouble, InFlight(x)[..n]))
  }

  ghost function StepSend(x: Exchange, n: nat, a: Answer): (x': Exchange)
    requires Inv(x) && x.tx.outcome.None? && n <= Asked(x.tx, x.txLimit) && (Seen(a).Success? ==> n > 0)
    requires a.chunk == x.data[|x.tx.moved|..][..n]
    ensures Inv(x') && x'.data == x.data && x'.rx == x.rx && |x'.tx.moved| == |x.tx.moved| + n
  {
    assert x.tx.moved + a.chunk == x.data[..|x.tx.moved| + n];
    x.(tx := Step(x.tx, a))
  }

  ghost function StepReceive(x: Exchange, n: nat, a: Answer): (x': Exchange)
    requires Inv(x) && x.rx.outcome.None? && n <= Asked(x.rx, x.rxLimit) && (Seen(a).Success? ==> n > 0)
    requires n <= |InFlight(x)| && a.chunk == InFlight(x)[..n]
    ensures Inv(x') && x'.data == x.data && x'.tx == x.tx && x'.rx.size == x.rx.size
    ensures |x'.rx.moved| == |x.rx.moved| + n
  {
    assert x.rx.moved + a.chunk == x.tx.moved[..|x.rx.moved| + n];
    x.(rx := Step(x.rx, a))
  }

  /** The side that is answered has moved the next bytes of the data, or of those in flight, and ends
      with the trouble there was, if any, and otherwise when it has everything. */
  ghost predicate Moved(t: Transfer, t': Transfer, chunk: seq<byte>, trouble: Trouble) {
    && t'.size == t.size && t'.moved == t.moved + chunk
    && t'.outcome == if trouble.gone then Some(Failure(Canceled))
                     else if trouble.timedOut then Some(Failure(Timeout))
                     else if trouble.error.Some? then Some(Failure(Other(trouble.error.value)))
                     else if |t'.moved| == t.size then Some(Success)
                     else None
  }

  lemma SidesAct(x: Exchange, e: Event)
    requires Inv(x) && Enabled(x, e)
    ensures var x' := Next(x, e);
            match e
            case Written(n, trouble) =>
              x'.rx == x.rx && Moved(x.tx, x'.tx, x.data[|x.tx.moved|..|x.tx.moved| + n], trouble)
            case Read(n, trouble) =>
              x'.tx == x.tx && Moved(x.rx, x'.rx, x.data[|x.rx.moved|..|x.rx.moved| + n], trouble)
  {
    match e
    case Written(n, trouble) =>
      assert x.data[|x.tx.moved|..][..n] == x.data[|x.tx.moved|..|x.tx.moved| + n];
    case Read(n, trouble) =>
      assert x.tx.moved == x.data[..|x.tx.moved|];
      assert InFlight(x)[..n] == x.data[|x.rx.moved|..|x.rx.moved| + n];
  }

  ghost function Run(x: Exchange, events: seq<Event>): (x': Exchange)
    requires Inv(x)
    ensures Inv(x') && x'.data == x.data && x'.rx.size == x.rx.size
  {
    hide Inv, Next;
    if events == [] then x else Next(Run(x, events[..|events| - 1]), events[|events| - 1])
  }

  // ----- what arrives -----

  /** For every interleaving of partial transfers, errors and timeouts, what the receiver has is a
      beginning of what was sent, and a receive that succeeds has filled its buffer with the first
      bytes of it: all of it if the sizes agree. */
  lemma ReceivedIsSent(data: seq<byte>, size: nat, txLimit: nat, rxLimit: nat, events: seq<Event>)
    requires data != [] && size > 0 && txLimit > 0 && rxLimit > 0
    ensures var x := Run(Start(data, size, txLimit, rxLimit), events);
            && x.rx.moved <= x.tx.moved <= data
            && (x.tx.outcome == Some(Success) ==> x.tx.moved == data)
            && (x.rx.outcome == Some(Success) ==> size <= |data| && x.rx.moved == data[..size])
            && (x.rx.outcome == Some(Success) && size == |data| ==> x.rx.moved == data && x.tx.moved == data)
  {
    hide Next, Run;
  }

  // ----- and that it arrives -----

  /** The bytes that the two sides still have to transfer */
  function Left(x: Exchange): nat
    requires |x.tx.moved| <= x.tx.size && |x.rx.moved| <= x.rx.size
  {
    x.tx.Rest() + x.rx.Rest()
  }

  ghost predicate NoFailure(x: Exchange) {
    !(x.tx.outcome.Some? && x.tx.outcome.value.Failure?) && !(x.rx.outcome.Some? && x.rx.outcome.value.Failure?)
  }

  /** Every event of the run happens, and without trouble. */
  ghost predicate Smooth(x: Exchange, events: seq<Event>)
    requires Inv(x)
  {
    forall i :: 0 <= i < |events| ==> events[i].trouble == FINE && Enabled(Run(x, events[..i]), events[i])
  }

  lemma StepIsSmooth(x: Exchange, e: Event)
    requires Inv(x) && Enabled(x, e) && e.trouble == FINE && NoFailure(x)
    ensures NoFailure(Next(x, e)) && Left(Next(x, e)) < Left(x)
  {
  }

  lemma {:induction false} SmoothProgress(x: Exchange, events: seq<Event>)
    requires Inv(x) && Smooth(x, events) && NoFailure(x)
    ensures NoFailure(Run(x, events)) && |events| + Left(Run(x, events)) <= Left(x)
  {
    hide Inv, Next, Enabled, NoFailure;
    LeftDefined(x);
    LeftDefined(Run(x, events));
    if events != [] {
      var n := |events| - 1;
      assert forall i :: 0 <= i < n ==> events[..n][..i] == events[..i];
      SmoothProgress(x, events[..n]);
      LeftDefined(Run(x, events[..n]));
      StepIsSmooth(Run(x, events[..n]), events[n]);
    }
  }

  lemma LeftDefined(x: Exchange)
    requires Inv(x)
    ensures |x.tx.moved| <= x.tx.size && |x.rx.moved| <= x.rx.size
  {
  }

  /** As long as a side has not ended, one of them can go on. */
  lemma NotStuck(x: Exchange)
    requires Inv(x) && NoFailure(x) && x.rx.size <= |x.data|
    requires x.tx.outcome.None? || x.rx.outcome.None?
    ensures exists e: Event :: e.trouble == FINE && Enabled(x, e)
  {
    if x.tx.outcome.None? {
      assert Enabled(x, Written(1, FINE));
    } else {
      assert Enabled(x, Read(1, FINE));
    }
  }

  /** Without trouble, whichever way the two sides take turns and however little they transfer at a
      time, both end after at most as many transfers as there are bytes to write and to read, and
      the receiver has what was sent. */
  lemma BothEnd(data: seq<byte>, size: nat, txLimit: nat, rxLimit: nat, events: seq<Event>)
    requires 0 < size <= |data| && txLimit > 0 && rxLimit > 0
    requires Smooth(Start(data, size, txLimit, rxLimit), events)
    ensures |events| <= |data| + size
    ensures var x := Run(Start(data, size, txLimit, rxLimit), events);
            if exists e: Event :: e.trouble == FINE && Enabled(x, e) then
              x.tx.outcome.None? || x.rx.outcome.None?
            else
              && x.tx.outcome == Some(Success) && x.tx.moved == data
              && x.rx.outcome == Some(Success) && x.rx.moved == data[..size]
  {
    hide Next, Run, Smooth;
    var x0 := Start(data, size, txLimit, rxLimit);
    SmoothProgress(x0, events);
    var x := Run(x0, events);
    if x.tx.outcome.None? || x.rx.outcome.None? {
      NotStuck(x);
    }
  }
}
