/** SignalSet: a raised signal is handed to every matching set, which queues it until somebody
    waits for it; when the last set is done with it, a cleanup handler runs.

    The state below is that of all sets, raised signals and posted callbacks together. A raised
    signal is known by its number, standing for the shared pointer to its data, and so is a set.
    Every lock-protected operation and every posted callback is one step; a RaiseSignal in
    progress notifies its sets one at a time, so other steps come in between. */
module SignalSet {
  import opened Common

  type Signals = set<nat>

  // ----- state -----

  /** A set, alive or destroyed. The last two fields are history: the signals it was notified
      of, and the ones it passed on to a handler, each in order. */
  datatype Set = Set(
    alive: bool,
    mask: Signals,
    handler: Option<nat>,
    queue: seq<nat>,
    notified: seq<nat>,
    dispatched: seq<nat>
  )

  /** SignalData, with the sets that the RaiseSignal call has yet to notify. */
  datatype Data = Data(signal: Signals, cnt: int, toNotify: seq<nat>)

  /** A posted callback. Which set a delivery comes `from` is history. */
  datatype Callback =
    | Deliver(handler: nat, data: nat, from: nat)
    | Cancel(handler: nat)
    | Cleanup(data: nat)

  /** `handlers` numbers the AwaitAsync calls; `called` and `cleaned` are history: the calls of
      handlers and of cleanup handlers. */
  datatype World = World(
    sets: seq<Set>,
    raised: seq<Data>,
    posted: seq<Callback>,
    handlers: nat,
    called: seq<Callback>,
    cleaned: seq<nat>
  )

  function Init(): World {
    World([], [], [], 0, [], [])
  }

  // ----- counting -----

  /** The sum of `f` over the elements of a sequence. */
  function Tally<T>(s: seq<T>, f: T -> nat): nat {
    if s == [] then 0 else f(s[0]) + Tally(s[1..], f)
  }

  lemma {:induction false} TallyConcat<T>(a: seq<T>, b: seq<T>, f: T -> nat)
    ensures Tally(a + b, f) == Tally(a, f) + Tally(b, f)
  {
    if a == [] {
      assert a + b == b;
    } else {
      assert (a + b)[1..] == a[1..] + b;
      TallyConcat(a[1..], b, f);
    }
  }

  lemma TallyAppend<T>(s: seq<T>, x: T, f: T -> nat)
    ensures Tally(s + [x], f) == Tally(s, f) + f(x)
  {
    TallyConcat(s, [x], f);
    assert [x][1..] == [];
  }

  lemma TallyRemove<T>(s: seq<T>, i: nat, f: T -> nat)
    requires i < |s|
    ensures Tally(s, f) == Tally(s[..i] + s[i + 1..], f) + f(s[i])
  {
    assert s == s[..i] + s[i..];
    TallyConcat(s[..i], s[i..], f);
    assert s[i..][1..] == s[i + 1..];
    assert Tally(s[i..], f) == f(s[i]) + Tally(s[i + 1..], f);
    TallyConcat(s[..i], s[i + 1..], f);
  }

  lemma TallyUpdate<T>(s: seq<T>, i: nat, x: T, f: T -> nat)
    requires i < |s|
    ensures Tally(s[i := x], f) == Tally(s, f) - f(s[i]) + f(x)
  {
    TallyRemove(s, i, f);
    TallyRemove(s[i := x], i, f);
    assert s[i := x][..i] + s[i := x][i + 1..] == s[..i] + s[i + 1..];
  }

  function Times(s: seq<nat>, n: nat): nat {
    multiset(s)[n]
  }

  function One(b: bool): nat {
    if b then 1 else 0
  }

  function Queued(d: nat): Set -> nat {
    (s: Set) => Times(s.queue, d)
  }

  function Handed(d: nat): Set -> nat {
    (s: Set) => Times(s.dispatched, d)
  }

  function Waiting(h: nat): Set -> nat {
    (s: Set) => One(s.handler == Some(h))
  }

  function Delivering(d: nat): Callback -> nat {
    (c: Callback) => One(c.Deliver? && c.data == d)
  }

  function Cleaning(d: nat): Callback -> nat {
    (c: Callback) => One(c == Cleanup(d))
  }

  function Calling(h: nat): Callback -> nat {
    (c: Callback) => One(!c.Cleanup? && c.handler == h)
  }

  // ----- steps -----

  function Post(w: World, c: Callback): World {
    w.(posted := w.posted + [c])
  }

  /** DeliverNextSignal */
  function DeliverNext(w: World, i: nat): World
    requires i < |w.sets| && w.sets[i].queue != []
  {
    var s := w.sets[i];
    if s.handler.None? then w
    else
      var s' := s.(handler := None, queue := s.queue[1..], dispatched := s.dispatched + [s.queue[0]]);
      Post(w.(sets := w.sets[i := s']), Deliver(s.handler.value, s.queue[0], i))
  }

  /** The replacement of the handler in AwaitAsync, None for an empty one */
  function ReplaceHandler(w: World, i: nat, handler: Option<nat>): World
    requires i < |w.sets|
  {
    var s := w.sets[i];
    var w' := w.(sets := w.sets[i := s.(handler := handler)]);
    if s.handler.Some? then Post(w', Cancel(s.handler.value)) else w'
  }

  function DeliverIfQueued(w: World, i: nat): World
    requires i < |w.sets|
  {
    if w.sets[i].queue != [] then DeliverNext(w, i) else w
  }

  function Awaited(w: World, i: nat): World
    requires i < |w.sets|
  {
    DeliverIfQueued(ReplaceHandler(w.(handlers := w.handlers + 1), i, Some(w.handlers)), i)
  }

  function Unawaited(w: World, i: nat): World
    requires i < |w.sets|
  {
    DeliverIfQueued(ReplaceHandler(w, i, None), i)
  }

  /** The part of RaiseSignal before the first set is notified; `targets` are the matching sets
      as the register lists them. */
  function Raise(w: World, signal: Signals, targets: seq<nat>): World {
    var d := |w.raised|;
    var w' := w.(raised := w.raised + [Data(signal, |targets|, targets)]);
    if targets == [] then w'.(cleaned := w.cleaned + [d]) else w'
  }

  /** OnSignalRaised for the next set of a RaiseSignal in progress */
  function Notify(w: World, d: nat): World
    requires d < |w.raised| && w.raised[d].toNotify != [] && w.raised[d].toNotify[0] < |w.sets|
  {
    DeliverNext(Pushed(w, d), w.raised[d].toNotify[0])
  }

  /** The state between pushing the signal and delivering the next one */
  function Pushed(w: World, d: nat): World
    requires d < |w.raised| && w.raised[d].toNotify != [] && w.raised[d].toNotify[0] < |w.sets|
  {
    var data := w.raised[d];
    var i := data.toNotify[0];
    var s := w.sets[i];
    w.(raised := w.raised[d := data.(toNotify := data.toNotify[1..])],
       sets := w.sets[i := s.(queue := s.queue + [d], notified := s.notified + [d])])
  }

  /** One round of the destructor's loop */
  function DropOne(w: World, i: nat): World
    requires i < |w.sets| && w.sets[i].queue != [] && w.sets[i].queue[0] < |w.raised|
  {
    var s := w.sets[i];
    var d := s.queue[0];
    var data := w.raised[d];
    var w' := w.(sets := w.sets[i := s.(queue := s.queue[1..])], raised := w.raised[d := data.(cnt := data.cnt - 1)]);
    if data.cnt == 1 then Post(w', Cleanup(d)) else w'
  }

  function DropAll(w: World, i: nat): (w': World)
    requires i < |w.sets| && forall k :: 0 <= k < |w.sets[i].queue| ==> w.sets[i].queue[k] < |w.raised|
    ensures |w'.sets| == |w.sets|
    decreases |w.sets[i].queue|
  {
    if w.sets[i].queue == [] then w else DropAll(DropOne(w, i), i)
  }

  function Destroyed(w: World, i: nat): World
    requires i < |w.sets| && forall k :: 0 <= k < |w.sets[i].queue| ==> w.sets[i].queue[k] < |w.raised|
  {
    var w' := Unawaited(DropAll(w, i), i);
    w'.(sets := w'.sets[i := w'.sets[i].(alive := false)])
  }

  /** A posted callback runs; callbacks may run in any order. */
  function Executed(w: World, k: nat): World
    requires k < |w.posted| && (w.posted[k].Deliver? ==> w.posted[k].data < |w.raised|)
  {
    var c := w.posted[k];
    var w' := w.(posted := w.posted[..k] + w.posted[k + 1..]);
    match c
    case Cancel(_) => w'.(called := w.called + [c])
    case Cleanup(d) => w'.(cleaned := w.cleaned + [d])
    case Deliver(_, d, _) =>
      var data := w.raised[d];
      var w'' := w'.(called := w.called + [c], raised := w.raised[d := data.(cnt := data.cnt - 1)]);
      if data.cnt == 1 then w''.(cleaned := w.cleaned + [d]) else w''
  }

  // ----- invariants -----

  /** The reference count is what is still to come: sets to be notified, queues that hold the
      signal, posted deliveries. */
  ghost predicate CountRight(w: World, d: nat)
    requires d < |w.raised|
  {
    w.raised[d].cnt == |w.raised[d].toNotify| + Tally(w.sets, Queued(d)) + Tally(w.posted, Delivering(d))
  }

  /** The cleanup handler has run, or is about to, once, exactly if nothing is to come. */
  ghost predicate CleanupRight(w: World, d: nat)
    requires d < |w.raised|
  {
    Times(w.cleaned, d) + Tally(w.posted, Cleaning(d)) == One(w.raised[d].cnt == 0)
  }

  /** Nothing is held of a signal that was not raised. */
  ghost predicate Unknown(w: World, d: nat) {
    && Tally(w.sets, Queued(d)) == 0 && Tally(w.posted, Delivering(d)) == 0
    && Tally(w.posted, Cleaning(d)) == 0 && Times(w.cleaned, d) == 0
  }

  /** Handlers are given a signal, or are about to be, once for every time a set passed it on. */
  ghost predicate HandedRight(w: World, d: nat) {
    Tally(w.sets, Handed(d)) == Tally(w.posted, Delivering(d)) + Tally(w.called, Delivering(d))
  }

  ghost predicate SignalRight(w: World, d: nat) {
    HandedRight(w, d) && if d < |w.raised| then CountRight(w, d) && CleanupRight(w, d) else Unknown(w, d)
  }

  /** Every handler waits, is posted, or has been called: one of these, once. */
  ghost predicate HandlerRight(w: World, h: nat) {
    Tally(w.sets, Waiting(h)) + Tally(w.posted, Calling(h)) + Tally(w.called, Calling(h)) == One(h < w.handlers)
  }

  ghost predicate SignalsRight(w: World) {
    forall d: nat :: SignalRight(w, d)
  }

  ghost predicate HandlersRight(w: World) {
    forall h: nat :: HandlerRight(w, h)
  }

  /** A set never has both a waiting handler and a queued signal, and it passes signals on in
      the order in which it was notified. A destroyed set holds nothing. */
  ghost predicate SetRight(s: Set) {
    && (s.handler.Some? ==> s.queue == [])
    && s.dispatched + s.queue <= s.notified && (s.alive ==> s.dispatched + s.queue == s.notified)
    && (!s.alive ==> s.queue == [] && s.handler.None?)
  }

  /** Sets still to be notified of a signal are alive and want it. */
  ghost predicate TargetsRight(w: World) {
    forall d, k :: 0 <= d < |w.raised| && 0 <= k < |w.raised[d].toNotify| ==>
      w.raised[d].toNotify[k] < |w.sets| && w.sets[w.raised[d].toNotify[k]].alive &&
      w.sets[w.raised[d].toNotify[k]].mask * w.raised[d].signal != {}
  }

  ghost predicate SetsRight(w: World) {
    forall i :: 0 <= i < |w.sets| ==> SetRight(w.sets[i])
  }

  ghost predicate Inv(w: World) {
    SignalsRight(w) && HandlersRight(w) && SetsRight(w) && TargetsRight(w)
  }

  // ----- preservation -----

  /** What an update of one set does to the counts. */
  lemma SetUpdated(w: World, i: nat, s: Set, n: nat)
    requires i < |w.sets|
    ensures var sets' := w.sets[i := s];
            && Tally(sets', Queued(n)) == Tally(w.sets, Queued(n)) - Times(w.sets[i].queue, n) + Times(s.queue, n)
            && Tally(sets', Handed(n)) ==
               Tally(w.sets, Handed(n)) - Times(w.sets[i].dispatched, n) + Times(s.dispatched, n)
            && Tally(sets', Waiting(n)) ==
               Tally(w.sets, Waiting(n)) - One(w.sets[i].handler == Some(n)) + One(s.handler == Some(n))
  {
    hide Tally;
    TallyUpdate(w.sets, i, s, Queued(n));
    TallyUpdate(w.sets, i, s, Handed(n));
    TallyUpdate(w.sets, i, s, Waiting(n));
  }

  /** What posting a callback does to them. */
  lemma Posted(w: World, c: Callback, n: nat)
    ensures var posted' := w.posted + [c];
            && Tally(posted', Delivering(n)) == Tally(w.posted, Delivering(n)) + One(c.Deliver? && c.data == n)
            && Tally(posted', Cleaning(n)) == Tally(w.posted, Cleaning(n)) + One(c == Cleanup(n))
            && Tally(posted', Calling(n)) == Tally(w.posted, Calling(n)) + One(!c.Cleanup? && c.handler == n)
  {
    hide Tally;
    TallyAppend(w.posted, c, Delivering(n));
    TallyAppend(w.posted, c, Cleaning(n));
    TallyAppend(w.posted, c, Calling(n));
  }

  /** What running a callback does to them. */
  lemma Taken(w: World, k: nat, n: nat)
    requires k < |w.posted|
    ensures var posted', c := w.posted[..k] + w.posted[k + 1..], w.posted[k];
            && Tally(w.posted, Delivering(n)) == Tally(posted', Delivering(n)) + One(c.Deliver? && c.data == n)
            && Tally(w.posted, Cleaning(n)) == Tally(posted', Cleaning(n)) + One(c == Cleanup(n))
            && Tally(w.posted, Calling(n)) == Tally(posted', Calling(n)) + One(!c.Cleanup? && c.handler == n)
  {
    hide Tally;
    TallyRemove(w.posted, k, Delivering(n));
    TallyRemove(w.posted, k, Cleaning(n));
    TallyRemove(w.posted, k, Calling(n));
  }

  /** What a call of a handler adds to the history. */
  lemma Called(w: World, c: Callback, n: nat)
    ensures var called' := w.called + [c];
            && Tally(called', Delivering(n)) == Tally(w.called, Delivering(n)) + One(c.Deliver? && c.data == n)
            && Tally(called', Calling(n)) == Tally(w.called, Calling(n)) + One(!c.Cleanup? && c.handler == n)
  {
    hide Tally;
    TallyAppend(w.called, c, Delivering(n));
    TallyAppend(w.called, c, Calling(n));
  }

  lemma TimesAppend(s: seq<nat>, x: nat, n: nat)
    ensures Times(s + [x], n) == Times(s, n) + One(x == n)
  {
  }

  lemma TimesFirst(s: seq<nat>, n: nat)
    requires s != []
    ensures Times(s, n) == One(s[0] == n) + Times(s[1..], n)
  {
    assert s == [s[0]] + s[1..];
    assert multiset(s) == multiset{s[0]} + multiset(s[1..]);
  }

  lemma QueuedIsRaised(w: World, i: nat)
    requires SignalsRight(w) && i < |w.sets|
    ensures forall k :: 0 <= k < |w.sets[i].queue| ==> w.sets[i].queue[k] < |w.raised|
  {
    hide Tally;
    forall k | 0 <= k < |w.sets[i].queue|
      ensures w.sets[i].queue[k] < |w.raised|
    {
      var d := w.sets[i].queue[k];
      assert d in multiset(w.sets[i].queue);
      TallyRemove(w.sets, i, Queued(d));
      assert SignalRight(w, d);
    }
  }

  lemma DeliveringIsRaised(w: World, k: nat)
    requires SignalsRight(w) && k < |w.posted| && w.posted[k].Deliver?
    ensures w.posted[k].data < |w.raised|
  {
    hide Tally;
    Taken(w, k, w.posted[k].data);
    assert SignalRight(w, w.posted[k].data);
  }

  /** A set just before a delivery: its handler and its queue may both be there. */
  ghost predicate AlmostRight(s: Set) {
    s.alive && s.dispatched + s.queue == s.notified
  }

  lemma DeliverNextCounts(w: World, i: nat)
    requires SignalsRight(w) && HandlersRight(w) && i < |w.sets| && w.sets[i].queue != []
    ensures SignalsRight(DeliverNext(w, i)) && HandlersRight(DeliverNext(w, i))
  {
    hide Tally, Times;
    var s, w' := w.sets[i], DeliverNext(w, i);
    if s.handler.Some? {
      forall n: nat
        ensures SignalRight(w', n) && HandlerRight(w', n)
      {
        assert SignalRight(w, n) && HandlerRight(w, n);
        SetUpdated(w, i, w'.sets[i], n);
        Posted(w, Deliver(s.handler.value, s.queue[0], i), n);
        TimesFirst(s.queue, n);
        TimesAppend(s.dispatched, s.queue[0], n);
      }
    }
  }

  lemma DeliverNextSet(w: World, i: nat)
    requires i < |w.sets| && w.sets[i].queue != [] && AlmostRight(w.sets[i])
    requires forall k :: 0 <= k < |w.sets| && k != i ==> SetRight(w.sets[k])
    ensures SetsRight(DeliverNext(w, i))
  {
    var s := w.sets[i];
    assert s.queue == [s.queue[0]] + s.queue[1..];
    ConcatAssociative(s.dispatched, [s.queue[0]], s.queue[1..]);
  }

  lemma DeliverNextKeepsInv(w: World, i: nat)
    requires SignalsRight(w) && HandlersRight(w) && TargetsRight(w)
    requires i < |w.sets| && w.sets[i].queue != [] && AlmostRight(w.sets[i])
    requires forall k :: 0 <= k < |w.sets| && k != i ==> SetRight(w.sets[k])
    ensures Inv(DeliverNext(w, i))
  {
    hide SignalsRight, HandlersRight, SetRight;
    DeliverNextCounts(w, i);
    DeliverNextSet(w, i);
  }

  // ----- waiting -----

  /** AwaitAsync takes a new handler number, and a cancellation none. */
  function Numbered(w: World, handler: Option<nat>): World {
    if handler.Some? then w.(handlers := w.handlers + 1) else w
  }

  lemma ReplaceHandlerCounts(w: World, i: nat, handler: Option<nat>)
    requires SignalsRight(w) && HandlersRight(w) && i < |w.sets| && (handler.Some? ==> handler.value == w.handlers)
    ensures var w' := ReplaceHandler(Numbered(w, handler), i, handler); SignalsRight(w') && HandlersRight(w')
  {
    hide Tally, Times;
    var s, w' := w.sets[i], ReplaceHandler(Numbered(w, handler), i, handler);
    forall n: nat
      ensures SignalRight(w', n) && HandlerRight(w', n)
    {
      assert SignalRight(w, n) && HandlerRight(w, n);
      SetUpdated(w, i, s.(handler := handler), n);
      if s.handler.Some? {
        Posted(w, Cancel(s.handler.value), n);
      }
    }
  }

  lemma AwaitAsyncKeepsInv(w: World, i: nat)
    requires Inv(w) && i < |w.sets| && w.sets[i].alive
    ensures Inv(Awaited(w, i))
  {
    hide SignalsRight, HandlersRight;
    ReplaceHandlerCounts(w, i, Some(w.handlers));
    var w' := ReplaceHandler(Numbered(w, Some(w.handlers)), i, Some(w.handlers));
    assert SetRight(w.sets[i]);
    if w.sets[i].queue != [] {
      DeliverNextKeepsInv(w', i);
    }
  }

  lemma CancelAwaitKeepsInv(w: World, i: nat)
    requires Inv(w) && i < |w.sets| && w.sets[i].alive
    ensures Inv(Unawaited(w, i)) && Unawaited(w, i).sets == w.sets[i := w.sets[i].(handler := None)]
  {
    hide SignalsRight, HandlersRight;
    ReplaceHandlerCounts(w, i, None);
    assert SetRight(w.sets[i]);
  }

  // ----- raising -----

  /** GetMatching: the live sets that want the signal, each once, in some order. */
  ghost predicate Matching(w: World, signal: Signals, targets: seq<nat>) {
    && NoDuplicates(targets)
    && forall i: nat :: i in targets <==> i < |w.sets| && w.sets[i].alive && w.sets[i].mask * signal != {}
  }

  lemma RaiseCounts(w: World, signal: Signals, targets: seq<nat>)
    requires SignalsRight(w) && HandlersRight(w)
    ensures SignalsRight(Raise(w, signal, targets)) && HandlersRight(Raise(w, signal, targets))
  {
    hide Tally, Times;
    var w' := Raise(w, signal, targets);
    forall n: nat
      ensures SignalRight(w', n) && HandlerRight(w', n)
    {
      assert SignalRight(w, n) && HandlerRight(w, n);
      TimesAppend(w.cleaned, |w.raised|, n);
    }
  }

  lemma RaiseKeepsInv(w: World, signal: Signals, targets: seq<nat>)
    requires Inv(w) && Matching(w, signal, targets)
    ensures Inv(Raise(w, signal, targets))
  {
    hide SignalsRight, HandlersRight, SetRight;
    RaiseCounts(w, signal, targets);
    assert forall k :: 0 <= k < |targets| ==> targets[k] in targets;
  }

  lemma PushedCounts(w: World, d: nat)
    requires SignalsRight(w) && HandlersRight(w)
    requires d < |w.raised| && w.raised[d].toNotify != [] && w.raised[d].toNotify[0] < |w.sets|
    ensures SignalsRight(Pushed(w, d)) && HandlersRight(Pushed(w, d))
  {
    hide Tally, Times;
    var w' := Pushed(w, d);
    var i := w.raised[d].toNotify[0];
    forall n: nat
      ensures SignalRight(w', n) && HandlerRight(w', n)
    {
      assert SignalRight(w, n) && HandlerRight(w, n);
      SetUpdated(w, i, w'.sets[i], n);
      TimesAppend(w.sets[i].queue, d, n);
    }
  }

  lemma NotifyKeepsInv(w: World, d: nat)
    requires Inv(w) && d < |w.raised| && w.raised[d].toNotify != []
    ensures w.raised[d].toNotify[0] < |w.sets| && Inv(Notify(w, d))
  {
    hide SignalsRight, HandlersRight;
    var i := w.raised[d].toNotify[0];
    assert w.raised[d].toNotify[0] < |w.sets| && w.sets[w.raised[d].toNotify[0]].alive;
    var w' := Pushed(w, d);
    var s := w.sets[i];
    PushedCounts(w, d);
    assert SetRight(s);
    ConcatAssociative(s.dispatched, s.queue, [d]);
    PushedTargets(w, d);
    DeliverNextKeepsInv(w', i);
  }

  lemma PushedTargets(w: World, d: nat)
    requires TargetsRight(w)
    requires d < |w.raised| && w.raised[d].toNotify != [] && w.raised[d].toNotify[0] < |w.sets|
    ensures TargetsRight(Pushed(w, d))
  {
    var w' := Pushed(w, d);
    forall e, k | 0 <= e < |w'.raised| && 0 <= k < |w'.raised[e].toNotify|
      ensures w'.raised[e].toNotify[k] < |w'.sets| && w'.sets[w'.raised[e].toNotify[k]].alive &&
              w'.sets[w'.raised[e].toNotify[k]].mask * w'.raised[e].signal != {}
    {
      assert w'.raised[e].toNotify[k] == w.raised[e].toNotify[if e == d then k + 1 else k];
    }
  }

  // ----- posted callbacks -----

  lemma RunPostedCounts(w: World, k: nat)
    requires SignalsRight(w) && HandlersRight(w) && k < |w.posted|
    requires w.posted[k].Deliver? ==> w.posted[k].data < |w.raised|
    ensures SignalsRight(Executed(w, k)) && HandlersRight(Executed(w, k))
  {
    hide Tally, Times;
    var w', c := Executed(w, k), w.posted[k];
    forall n: nat
      ensures SignalRight(w', n) && HandlerRight(w', n)
    {
      assert SignalRight(w, n) && HandlerRight(w, n);
      Taken(w, k, n);
      if c.Cleanup? {
        TimesAppend(w.cleaned, c.data, n);
      } else {
        Called(w, c, n);
        if c.Deliver? {
          TimesAppend(w.cleaned, c.data, n);
        }
      }
    }
  }

  lemma RunPostedKeepsInv(w: World, k: nat)
    requires Inv(w) && k < |w.posted| && (w.posted[k].Deliver? ==> w.posted[k].data < |w.raised|)
    ensures Inv(Executed(w, k))
  {
    hide SignalsRight, HandlersRight, SetRight;
    RunPostedCounts(w, k);
  }

  // ----- destruction -----

  lemma DropOneCounts(w: World, i: nat)
    requires SignalsRight(w) && HandlersRight(w) && i < |w.sets|
    requires w.sets[i].queue != [] && w.sets[i].queue[0] < |w.raised|
    ensures SignalsRight(DropOne(w, i)) && HandlersRight(DropOne(w, i))
  {
    hide Tally, Times;
    var w', d := DropOne(w, i), w.sets[i].queue[0];
    forall n: nat
      ensures SignalRight(w', n) && HandlerRight(w', n)
    {
      assert SignalRight(w, n) && HandlerRight(w, n);
      SetUpdated(w, i, w'.sets[i], n);
      TimesFirst(w.sets[i].queue, n);
      Posted(w, Cleanup(d), n);
    }
  }

  /** The destructor empties the queue and touches nothing else of any set. */
  lemma {:induction false} DropAllCounts(w: World, i: nat)
    requires SignalsRight(w) && HandlersRight(w) && i < |w.sets|
    requires forall k :: 0 <= k < |w.sets[i].queue| ==> w.sets[i].queue[k] < |w.raised|
    ensures var w' := DropAll(w, i);
            && SignalsRight(w') && HandlersRight(w') && w'.sets == w.sets[i := w.sets[i].(queue := [])]
            && |w'.raised| == |w.raised|
            && forall d :: 0 <= d < |w.raised| ==>
                 w'.raised[d].toNotify == w.raised[d].toNotify && w'.raised[d].signal == w.raised[d].signal
    decreases |w.sets[i].queue|
  {
    hide SignalsRight, HandlersRight;
    if w.sets[i].queue != [] {
      DropOneCounts(w, i);
      DropAllCounts(DropOne(w, i), i);
    }
  }

  /** No RaiseSignal in progress is holding on to the set. */
  ghost predicate Unpinned(w: World, i: nat) {
    forall d, k :: 0 <= d < |w.raised| && 0 <= k < |w.raised[d].toNotify| ==> w.raised[d].toNotify[k] != i
  }

  lemma DestroyKeepsInv(w: World, i: nat)
    requires Inv(w) && i < |w.sets| && w.sets[i].alive && Unpinned(w, i)
    requires forall k :: 0 <= k < |w.sets[i].queue| ==> w.sets[i].queue[k] < |w.raised|
    ensures Inv(Destroyed(w, i))
  {
    hide SignalsRight, HandlersRight;
    DropAllCounts(w, i);
    var w1 := DropAll(w, i);
    ReplaceHandlerCounts(w1, i, None);
    var w2 := Unawaited(w1, i);
    DeadCounts(w2, i);
    assert SetRight(w.sets[i]);
  }

  /** Being alive is not counted. */
  lemma DeadCounts(w: World, i: nat)
    requires SignalsRight(w) && HandlersRight(w) && i < |w.sets|
    ensures var w' := w.(sets := w.sets[i := w.sets[i].(alive := false)]); SignalsRight(w') && HandlersRight(w')
  {
    hide Tally, Times;
    var w' := w.(sets := w.sets[i := w.sets[i].(alive := false)]);
    forall n: nat
      ensures SignalRight(w', n) && HandlerRight(w', n)
    {
      assert SignalRight(w, n) && HandlerRight(w, n);
      SetUpdated(w, i, w'.sets[i], n);
    }
  }

  // ----- runs -----

  datatype Event =
    | Create(mask: Signals)
    | Await(i: nat)
    | Unwait(i: nat)
    | Raising(signal: Signals, targets: seq<nat>)
    | Notifying(d: nat)
    | Destroying(i: nat)
    | Running(k: nat)

  ghost predicate Enabled(w: World, e: Event) {
    match e
    case Create(_) => true
    case Await(i) => i < |w.sets| && w.sets[i].alive
    case Unwait(i) => i < |w.sets| && w.sets[i].alive
    case Raising(signal, targets) => Matching(w, signal, targets)
    case Notifying(d) => d < |w.raised| && w.raised[d].toNotify != []
    case Destroying(i) => i < |w.sets| && w.sets[i].alive && Unpinned(w, i)
    case Running(k) => k < |w.posted|
  }

  function NewSet(mask: Signals): Set {
    Set(true, mask, None, [], [], [])
  }

  lemma CreateKeepsInv(w: World, mask: Signals)
    requires Inv(w)
    ensures Inv(w.(sets := w.sets + [NewSet(mask)]))
  {
    hide Tally;
    var w' := w.(sets := w.sets + [NewSet(mask)]);
    forall n: nat
      ensures SignalRight(w', n) && HandlerRight(w', n)
    {
      assert SignalRight(w, n) && HandlerRight(w, n);
      TallyAppend(w.sets, NewSet(mask), Queued(n));
      TallyAppend(w.sets, NewSet(mask), Handed(n));
      TallyAppend(w.sets, NewSet(mask), Waiting(n));
      var none: seq<nat> := [];
      assert multiset(none)[n] == 0;
    }
  }

  /** The state after an event; events that are not enabled do not happen. */
  ghost function Next(w: World, e: Event): (w': World)
    requires Inv(w)
    ensures Inv(w')
  {
    hide SetsRight, HandlersRight, TargetsRight;
    if !Enabled(w, e) then w
    else
      match e
      case Create(mask) => CreateKeepsInv(w, mask); w.(sets := w.sets + [NewSet(mask)])
      case Await(i) => AwaitAsyncKeepsInv(w, i); Awaited(w, i)
      case Unwait(i) => CancelAwaitKeepsInv(w, i); Unawaited(w, i)
      case Raising(signal, targets) => RaiseKeepsInv(w, signal, targets); Raise(w, signal, targets)
      case Notifying(d) => NotifyKeepsInv(w, d); Notify(w, d)
      case Destroying(i) => QueuedIsRaised(w, i); DestroyKeepsInv(w, i); Destroyed(w, i)
      case Running(k) =>
        if w.posted[k].Deliver? then DeliveringIsRaised(w, k); RunPostedKeepsInv(w, k); Executed(w, k)
        else RunPostedKeepsInv(w, k); Executed(w, k)
  }

  ghost function Run(w: World, events: seq<Event>): (w': World)
    requires Inv(w)
    ensures Inv(w')
  {
    hide Inv, Next;
    if events == [] then w else Next(Run(w, events[..|events| - 1]), events[|events| - 1])
  }

  ghost function RunFrom(events: seq<Event>): (w: World)
    ensures Inv(w)
  {
    InitInv();
    Run(Init(), events)
  }

  lemma InitInv()
    ensures Inv(Init())
  {
  }

  // ----- what callers see -----

  /** In no reachable state does a set have both a waiting handler and a queued signal, and the
      signals it has handed to handlers are the first it was notified of, in order; all others
      are still queued unless the set was destroyed. */
  lemma DeliversInOrder(events: seq<Event>, i: nat)
    requires i < |RunFrom(events).sets|
    ensures var s := RunFrom(events).sets[i];
            && (s.handler.None? || s.queue == [])
            && s.dispatched <= s.notified && (s.alive ==> s.dispatched + s.queue == s.notified)
  {
    hide SignalsRight, HandlersRight, TargetsRight, Run;
    InitInv();
    assert SetRight(RunFrom(events).sets[i]);
    var s := RunFrom(events).sets[i];
    assert s.dispatched <= s.dispatched + s.queue;
    assert s.dispatched == s.notified[..|s.dispatched|];
  }

  lemma TallyZero<T>(s: seq<T>, f: T -> nat, i: nat)
    requires Tally(s, f) == 0 && i < |s|
    ensures f(s[i]) == 0
  {
    TallyRemove(s, i, f);
  }

  /** A cleanup handler runs at most once, and only when every matching set has been notified
      and has handed the signal to a handler that has returned, or dropped it. */
  lemma CleanupOnlyOnceAtTheEnd(w: World, d: nat)
    requires Inv(w) && d < |w.raised|
    ensures Times(w.cleaned, d) <= 1
    ensures Times(w.cleaned, d) == 1 ==>
              && w.raised[d].cnt == 0 && w.raised[d].toNotify == []
              && (forall i :: 0 <= i < |w.sets| ==> d !in w.sets[i].queue)
              && (forall k :: 0 <= k < |w.posted| ==>
                    !(w.posted[k].Deliver? && w.posted[k].data == d) && w.posted[k] != Cleanup(d))
  {
    hide Tally;
    assert SignalRight(w, d);
    if Times(w.cleaned, d) == 1 {
      forall i | 0 <= i < |w.sets|
        ensures d !in w.sets[i].queue
      {
        assert d in w.sets[i].queue ==> d in multiset(w.sets[i].queue);
        TallyZero(w.sets, Queued(d), i);
      }
      forall k | 0 <= k < |w.posted|
        ensures !(w.posted[k].Deliver? && w.posted[k].data == d) && w.posted[k] != Cleanup(d)
      {
        TallyZero(w.posted, Delivering(d), k);
        TallyZero(w.posted, Cleaning(d), k);
      }
    }
  }

  lemma {:induction false} TallyOfZeros<T>(s: seq<T>, f: T -> nat)
    requires forall i :: 0 <= i < |s| ==> f(s[i]) == 0
    ensures Tally(s, f) == 0
  {
    if s != [] {
      assert forall i :: 0 <= i < |s[1..]| ==> s[1..][i] == s[i + 1];
      TallyOfZeros(s[1..], f);
    }
  }

  /** Once everything has come to rest, every raised signal has been cleaned up, exactly once. */
  lemma AllCleanedAtRest(w: World, d: nat)
    requires Inv(w) && d < |w.raised|
    requires w.posted == [] && w.raised[d].toNotify == []
    requires forall i :: 0 <= i < |w.sets| ==> d !in w.sets[i].queue
    ensures Times(w.cleaned, d) == 1
  {
    assert SignalRight(w, d);
    forall i | 0 <= i < |w.sets|
      ensures Queued(d)(w.sets[i]) == 0
    {
      assert d !in multiset(w.sets[i].queue);
    }
    TallyOfZeros(w.sets, Queued(d));
  }

  /** A handler is called at most once; when its set no longer waits with it and nothing is
      posted, it has been called. */
  lemma HandlerCalledOnce(w: World, h: nat)
    requires Inv(w) && h < w.handlers
    ensures Tally(w.called, Calling(h)) <= 1
    ensures w.posted == [] && (forall i :: 0 <= i < |w.sets| ==> w.sets[i].handler != Some(h)) ==>
              Tally(w.called, Calling(h)) == 1
  {
    assert HandlerRight(w, h);
    if w.posted == [] && forall i :: 0 <= i < |w.sets| ==> w.sets[i].handler != Some(h) {
      TallyOfZeros(w.sets, Waiting(h));
    }
  }

  lemma {:induction false} TallySame<T>(s: seq<T>, f: T -> nat, g: T -> nat)
    requires forall i :: 0 <= i < |s| ==> f(s[i]) == g(s[i])
    ensures Tally(s, f) == Tally(s, g)
  {
    if s != [] {
      assert forall i :: 0 <= i < |s[1..]| ==> s[1..][i] == s[i + 1];
      TallySame(s[1..], f, g);
    }
  }

  function Received(d: nat): Set -> nat {
    (s: Set) => Times(s.notified, d)
  }

  /** Once a signal is no longer held anywhere, and if no set was destroyed, as many handlers have
      been called with it as sets were notified of it. */
  lemma EveryNotificationIsHandled(w: World, d: nat)
    requires Inv(w) && forall i :: 0 <= i < |w.sets| ==> w.sets[i].alive && d !in w.sets[i].queue
    requires forall k :: 0 <= k < |w.posted| ==> !(w.posted[k].Deliver? && w.posted[k].data == d)
    ensures Tally(w.called, Delivering(d)) == Tally(w.sets, Received(d))
  {
    assert SignalRight(w, d);
    TallyOfZeros(w.posted, Delivering(d));
    forall i | 0 <= i < |w.sets|
      ensures Handed(d)(w.sets[i]) == Received(d)(w.sets[i])
    {
      NothingQueued(w.sets[i], d);
    }
    TallySame(w.sets, Handed(d), Received(d));
  }

  lemma NothingQueued(s: Set, d: nat)
    requires SetRight(s) && s.alive && d !in s.queue
    ensures Times(s.dispatched, d) == Times(s.notified, d)
  {
    assert d !in multiset(s.queue);
    assert multiset(s.dispatched + s.queue) == multiset(s.dispatched) + multiset(s.queue);
  }

  // ----- each operation, told by its effects -----

  /** AwaitAsync cancels the handler that waits, if any, and hands the first queued signal to the new
      one, which waits if there is none. */
  lemma AwaitAnswers(w: World, i: nat)
    requires Inv(w) && Enabled(w, Await(i))
    ensures var s, h := w.sets[i], w.handlers;
            Next(w, Await(i)) == w.(
              handlers := h + 1,
              posted := w.posted + (if s.handler.Some? then [Cancel(s.handler.value)] else []) +
                        (if s.queue == [] then [] else [Deliver(h, s.queue[0], i)]),
              sets := w.sets[i := if s.queue == [] then s.(handler := Some(h))
                                  else s.(handler := None, queue := s.queue[1..],
                                          dispatched := s.dispatched + [s.queue[0]])])
  {
    hide SignalsRight, HandlersRight, TargetsRight, SetsRight;
  }

  /** CancelAwait cancels the handler that waits, if any, and does nothing else. */
  lemma CancelAwaitAnswers(w: World, i: nat)
    requires Inv(w) && Enabled(w, Unwait(i))
    ensures var s := w.sets[i];
            Next(w, Unwait(i)) == w.(
              posted := w.posted + (if s.handler.Some? then [Cancel(s.handler.value)] else []),
              sets := w.sets[i := s.(handler := None)])
  {
    hide SignalsRight, HandlersRight, TargetsRight, SetsRight;
  }

  /** RaiseSignal counts the sets it is going to notify; if there are none the signal is cleaned up
      at once. */
  lemma RaiseAnswers(w: World, signal: Signals, targets: seq<nat>)
    requires Inv(w) && Enabled(w, Raising(signal, targets))
    ensures Next(w, Raising(signal, targets)) == w.(
              raised := w.raised + [Data(signal, |targets|, targets)],
              cleaned := if targets == [] then w.cleaned + [|w.raised|] else w.cleaned)
  {
    hide SignalsRight, HandlersRight, TargetsRight, SetsRight;
  }

  /** A notified set hands the signal to the handler that waits, and otherwise queues it behind the
      others. */
  lemma NotifyAnswers(w: World, d: nat)
    requires Inv(w) && Enabled(w, Notifying(d))
    ensures var i := w.raised[d].toNotify[0];
            && i < |w.sets|
            && var s := w.sets[i];
               Next(w, Notifying(d)) == w.(
                 raised := w.raised[d := w.raised[d].(toNotify := w.raised[d].toNotify[1..])],
                 posted := w.posted + (if s.handler.Some? then [Deliver(s.handler.value, d, i)] else []),
                 sets := w.sets[i := if s.handler.None? then s.(queue := s.queue + [d], notified := s.notified + [d])
                                     else s.(handler := None, notified := s.notified + [d],
                                             dispatched := s.dispatched + [d])])
  {
    hide SignalsRight, HandlersRight;
    NotifyKeepsInv(w, d);
    var i := w.raised[d].toNotify[0];
    assert SetRight(w.sets[i]);
    if w.sets[i].handler.Some? {
      assert [] + [d] == [d] && [d][1..] == [];
    }
  }

  /** A posted callback calls its handler; a delivery then lets go of the signal, and the last one to
      do so cleans it up. */
  lemma RunPostedAnswers(w: World, k: nat)
    requires Inv(w) && Enabled(w, Running(k))
    ensures var c, w' := w.posted[k], Next(w, Running(k));
            && w'.posted == w.posted[..k] + w.posted[k + 1..] && w'.sets == w.sets && w'.handlers == w.handlers
            && w'.called == (if c.Cleanup? then w.called else w.called + [c])
            && (if c.Deliver? then
                  && c.data < |w.raised|
                  && var data := w.raised[c.data];
                     && w'.raised == w.raised[c.data := data.(cnt := data.cnt - 1)]
                     && w'.cleaned == if data.cnt == 1 then w.cleaned + [c.data] else w.cleaned
                else
                  w'.raised == w.raised && w'.cleaned == if c.Cleanup? then w.cleaned + [c.data] else w.cleaned)
  {
    hide SignalsRight, HandlersRight, TargetsRight, SetsRight;
    if w.posted[k].Deliver? {
      DeliveringIsRaised(w, k);
    }
  }

  lemma {:induction false} DropAllLetsGo(w: World, i: nat, d: nat)
    requires i < |w.sets| && d < |w.raised|
    requires forall k :: 0 <= k < |w.sets[i].queue| ==> w.sets[i].queue[k] < |w.raised|
    ensures var w' := DropAll(w, i);
            |w'.raised| == |w.raised| && w'.raised[d].cnt == w.raised[d].cnt - Times(w.sets[i].queue, d)
    decreases |w.sets[i].queue|
  {
    if w.sets[i].queue == [] {
      assert d !in multiset(w.sets[i].queue);
    } else {
      hide Times;
      TimesFirst(w.sets[i].queue, d);
      DropAllLetsGo(DropOne(w, i), i, d);
    }
  }

  /** A destroyed set lets go of every queued signal, as often as it is queued, posting nothing but
      cleanups; then the handler that waits is cancelled. The set is gone for good. */
  lemma DestroyAnswers(w: World, i: nat)
    requires Inv(w) && Enabled(w, Destroying(i))
    ensures var s, w' := w.sets[i], Next(w, Destroying(i));
            && w'.sets == w.sets[i := s.(alive := false, queue := [], handler := None)]
            && |w'.raised| == |w.raised|
            && (forall d :: 0 <= d < |w.raised| ==> w'.raised[d].cnt == w.raised[d].cnt - Times(s.queue, d))
            && w'.handlers == w.handlers && w'.called == w.called && w'.cleaned == w.cleaned
            && exists cleanups: seq<Callback> ::
                 && w'.posted == w.posted + cleanups + (if s.handler.Some? then [Cancel(s.handler.value)] else [])
                 && forall c <- cleanups :: c.Cleanup?
  {
    hide SignalsRight, HandlersRight, TargetsRight, SetsRight, Times, DropAll;
    QueuedIsRaised(w, i);
    DropAllCounts(w, i);
    forall d | 0 <= d < |w.raised|
      ensures DropAll(w, i).raised[d].cnt == w.raised[d].cnt - Times(w.sets[i].queue, d)
    {
      DropAllLetsGo(w, i, d);
    }
    DropAllPosts(w, i);
    var cleanups := DropAll(w, i).posted[|w.posted|..];
    assert DropAll(w, i).posted == w.posted + cleanups;
  }

  lemma {:induction false} DropAllPosts(w: World, i: nat)
    requires i < |w.sets| && forall k :: 0 <= k < |w.sets[i].queue| ==> w.sets[i].queue[k] < |w.raised|
    ensures var w' := DropAll(w, i);
            && w.posted <= w'.posted && (forall k :: |w.posted| <= k < |w'.posted| ==> w'.posted[k].Cleanup?)
            && w'.handlers == w.handlers && w'.called == w.called && w'.cleaned == w.cleaned
    decreases |w.sets[i].queue|
  {
    if w.sets[i].queue != [] {
      DropAllPosts(DropOne(w, i), i);
    }
  }

  // ----- the operations as the source performs them -----

  /** All notifications of one RaiseSignal in a row */
  ghost function NotifyAll(w: World, d: nat): (w': World)
    requires Inv(w) && d < |w.raised|
    ensures Inv(w')
    decreases |w.raised[d].toNotify|
  {
    if w.raised[d].toNotify == [] then w else NotifyKeepsInv(w, d); NotifyAll(Notify(w, d), d)
  }

  /** A RaiseSignal that nothing interrupts */
  ghost function Signalled(w: World, signal: Signals, targets: seq<nat>): World
    requires Inv(w) && Matching(w, signal, targets)
  {
    RaiseKeepsInv(w, signal, targets);
    NotifyAll(Raise(w, signal, targets), |w.raised|)
  }

  ghost function Dropped(w: World, i: nat): World
    requires Inv(w) && i < |w.sets|
  {
    QueuedIsRaised(w, i);
    Destroyed(w, i)
  }

  /** Every set that is to be notified receives the signal once, the others not at all, and
      nothing else is ever added to what a set received. */
  lemma {:induction false} NotifyAllReaches(w: World, d: nat, i: nat)
    requires Inv(w) && d < |w.raised| && i < |w.sets| && NoDuplicates(w.raised[d].toNotify)
    ensures i < |NotifyAll(w, d).sets|
    ensures NotifyAll(w, d).sets[i].notified == w.sets[i].notified + if i in w.raised[d].toNotify then [d] else []
    decreases |w.raised[d].toNotify|
  {
    hide Inv, SignalsRight, HandlersRight;
    var rest := w.raised[d].toNotify;
    if rest != [] {
      NotifyKeepsInv(w, d);
      NotifyAllReaches(Notify(w, d), d, i);
    }
  }

  class SignalSets {
    var sets_: seq<Set>
    var raised_: seq<Data>
    var posted_: seq<Callback>
    var handlers_: nat
    ghost var called_: seq<Callback>
    ghost var cleaned_: seq<nat>

    ghost function View(): World
      reads this
    {
      World(sets_, raised_, posted_, handlers_, called_, cleaned_)
    }

    constructor ()
      ensures View() == Init() && Inv(View())
    {
      sets_, raised_, posted_, handlers_ := [], [], [], 0;
      called_, cleaned_ := [], [];
    }

    method Create(mask: Signals) returns (i: nat)
      requires Inv(View())
      modifies this
      ensures Inv(View()) && i == |old(sets_)|
      ensures View() == old(View()).(sets := old(sets_) + [NewSet(mask)])
    {
      CreateKeepsInv(View(), mask);
      i := |sets_|;
      sets_ := sets_ + [NewSet(mask)];
    }

    /** `sets` is what GetMatching returned. */
    method RaiseSignal(signal: Signals, sets: seq<nat>)
      requires Inv(View()) && Matching(View(), signal, sets)
      modifies this
      ensures Inv(View()) && |raised_| == |old(raised_)| + 1
      ensures View() == Signalled(old(View()), signal, sets)
    {
      hide Inv;
      RaiseKeepsInv(View(), signal, sets);
      ghost var before := View();
      var d := |raised_|;
      raised_ := raised_ + [Data(signal, |sets|, sets)];
      if sets == [] {
        cleaned_ := cleaned_ + [d];
      }
      ghost var raised := View();
      for k := 0 to |sets|
        invariant Inv(View()) && d < |raised_| == |raised.raised| && raised_[d].toNotify == sets[k..]
        invariant NotifyAll(View(), d) == NotifyAll(raised, d)
      {
        NotifyKeepsInv(View(), d);
        raised_ := raised_[d := raised_[d].(toNotify := raised_[d].toNotify[1..])];
        OnSignalRaised(sets[k], d);
      }
    }

    method OnSignalRaised(i: nat, d: nat)
      requires i < |sets_|
      modifies this`sets_, this`posted_
      ensures var s := old(sets_[i]);
              var s' := s.(queue := s.queue + [d], notified := s.notified + [d]);
              View() == DeliverNext(old(View()).(sets := old(sets_)[i := s']), i)
    {
      sets_ := sets_[i := sets_[i].(queue := sets_[i].queue + [d], notified := sets_[i].notified + [d])];
      DeliverNextSignal(i);
    }

    method DeliverNextSignal(i: nat)
      requires i < |sets_| && sets_[i].queue != []
      modifies this`sets_, this`posted_
      ensures View() == DeliverNext(old(View()), i)
    {
      var s := sets_[i];
      if s.handler.None? {
        return;
      }
      sets_ := sets_[i := s.(handler := None, queue := s.queue[1..], dispatched := s.dispatched + [s.queue[0]])];
      posted_ := posted_ + [Deliver(s.handler.value, s.queue[0], i)];
    }

    method AwaitAsync(i: nat) returns (canceled: bool)
      requires Inv(View()) && i < |sets_| && sets_[i].alive
      modifies this
      ensures Inv(View()) && View() == Awaited(old(View()), i)
      ensures canceled == old(sets_[i].handler.Some?)
    {
      hide Inv;
      AwaitAsyncKeepsInv(View(), i);
      var handler := handlers_;
      handlers_ := handlers_ + 1;
      canceled := SetHandler(i, Some(handler));
      if sets_[i].queue != [] {
        DeliverNextSignal(i);
      }
    }

    method CancelAwait(i: nat) returns (canceled: bool)
      requires Inv(View()) && i < |sets_| && sets_[i].alive
      modifies this`sets_, this`posted_
      ensures Inv(View()) && View() == Unawaited(old(View()), i)
      ensures canceled == old(sets_[i].handler.Some?)
    {
      hide Inv;
      CancelAwaitKeepsInv(View(), i);
      canceled := SetHandler(i, None);
      if sets_[i].queue != [] {
        DeliverNextSignal(i);
      }
    }

    method SetHandler(i: nat, handler: Option<nat>) returns (canceled: bool)
      requires i < |sets_|
      modifies this`sets_, this`posted_
      ensures View() == ReplaceHandler(old(View()), i, handler)
      ensures canceled == old(sets_[i].handler.Some?)
    {
      var s := sets_[i];
      canceled := s.handler.Some?;
      if canceled {
        posted_ := posted_ + [Cancel(s.handler.value)];
      }
      sets_ := sets_[i := s.(handler := handler)];
    }

    /** The destructor */
    method Destroy(i: nat)
      requires Inv(View()) && i < |sets_| && sets_[i].alive && Unpinned(View(), i)
      modifies this
      ensures Inv(View())
      ensures View() == Dropped(old(View()), i)
    {
      hide SignalsRight, HandlersRight, SetRight, TargetsRight;
      ghost var before := View();
      QueuedIsRaised(before, i);
      DestroyKeepsInv(before, i);
      while sets_[i].queue != []
        invariant i < |sets_| == |before.sets| && |raised_| == |before.raised|
        invariant forall k :: 0 <= k < |sets_[i].queue| ==> sets_[i].queue[k] < |raised_|
        invariant DropAll(View(), i) == DropAll(before, i)
        decreases |sets_[i].queue|
      {
        var d := sets_[i].queue[0];
        sets_ := sets_[i := sets_[i].(queue := sets_[i].queue[1..])];
        raised_ := raised_[d := raised_[d].(cnt := raised_[d].cnt - 1)];
        if raised_[d].cnt == 0 {
          posted_ := posted_ + [Cleanup(d)];
        }
      }
      var canceled := SetHandler(i, None);
      sets_ := sets_[i := sets_[i].(alive := false)];
    }

    /** The context runs the callback at position `k`. */
    method RunPosted(k: nat)
      requires Inv(View()) && k < |posted_|
      requires posted_[k].Deliver? ==> posted_[k].data < |raised_|
      modifies this
      ensures Inv(View()) && View() == Executed(old(View()), k)
    {
      hide Inv;
      RunPostedKeepsInv(View(), k);
      var c := posted_[k];
      posted_ := posted_[..k] + posted_[k + 1..];
      match c
      case Cancel(_) => called_ := called_ + [c];
      case Cleanup(d) => cleaned_ := cleaned_ + [d];
      case Deliver(_, d, _) =>
        called_ := called_ + [c];
        raised_ := raised_[d := raised_[d].(cnt := raised_[d].cnt - 1)];
        if raised_[d].cnt == 0 {
          cleaned_ := cleaned_ + [d];
        }
    }
  }
}
