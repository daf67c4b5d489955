/** Which sets are notified of a signal, how often, and in what order. */
module SignalOrder {
  import opened Common
  import opened SignalSet

  /** No set has been, or will be, notified twice of a signal, or of one it does not want. */
  ghost predicate NotifiedOnce(w: World) {
    && (forall d :: 0 <= d < |w.raised| ==> NoDuplicates(w.raised[d].toNotify))
    && forall i :: 0 <= i < |w.sets| ==> HistoryOk(w, i)
  }

  ghost predicate HistoryOk(w: World, i: nat)
    requires i < |w.sets|
  {
    var s := w.sets[i];
    && NoDuplicates(s.notified)
    && forall d <- s.notified :: d < |w.raised| && s.mask * w.raised[d].signal != {} && i !in w.raised[d].toNotify
  }

  /** A step that notifies nobody */
  ghost predicate SameHistory(w: World, w': World) {
    && |w'.sets| == |w.sets| && |w'.raised| == |w.raised|
    && (forall i :: 0 <= i < |w.sets| ==>
          w'.sets[i].mask == w.sets[i].mask && w'.sets[i].notified == w.sets[i].notified)
    && (forall d :: 0 <= d < |w.raised| ==>
          w'.raised[d].toNotify == w.raised[d].toNotify && w'.raised[d].signal == w.raised[d].signal)
  }

  lemma QuietStep(w: World, e: Event)
    requires Inv(w) && (!Enabled(w, e) || e.Await? || e.Unwait? || e.Destroying? || e.Running?)
    ensures SameHistory(w, Next(w, e))
  {
    hide SignalsRight, HandlersRight, SetRight, TargetsRight, Destroyed, Executed;
    if Enabled(w, e) {
      if e.Destroying? {
        QueuedIsRaised(w, e.i);
        QuietDestruction(w, e.i);
      } else if e.Running? {
        if w.posted[e.k].Deliver? {
          DeliveringIsRaised(w, e.k);
        }
        QuietCallback(w, e.k);
      }
    }
  }

  lemma QuietDestruction(w: World, i: nat)
    requires SignalsRight(w) && HandlersRight(w) && i < |w.sets|
    requires forall k :: 0 <= k < |w.sets[i].queue| ==> w.sets[i].queue[k] < |w.raised|
    ensures SameHistory(w, Destroyed(w, i))
  {
    hide SignalsRight, HandlersRight, DropAll;
    DropAllCounts(w, i);
  }

  lemma QuietCallback(w: World, k: nat)
    requires k < |w.posted| && (w.posted[k].Deliver? ==> w.posted[k].data < |w.raised|)
    ensures SameHistory(w, Executed(w, k))
  {
  }

  /** The step that notifies the next set of signal `d` */
  lemma NotifyingStep(w: World, d: nat)
    requires Inv(w) && Enabled(w, Notifying(d))
    ensures var w', i := Next(w, Notifying(d)), w.raised[d].toNotify[0];
            && i < |w.sets| == |w'.sets| && w.sets[i].mask * w.raised[d].signal != {}
            && |w'.raised| == |w.raised|
            && (forall k :: 0 <= k < |w.sets| ==>
                  && w'.sets[k].mask == w.sets[k].mask
                  && w'.sets[k].notified == w.sets[k].notified + if k == i then [d] else [])
            && (forall c :: 0 <= c < |w.raised| ==>
                  && w'.raised[c].signal == w.raised[c].signal
                  && w'.raised[c].toNotify == w.raised[c].toNotify[if c == d then 1 else 0..])
  {
    hide SignalsRight, HandlersRight, SetRight;
    NotifyKeepsInv(w, d);
    assert w.sets[w.raised[d].toNotify[0]].mask * w.raised[d].signal != {};
  }

  /** The steps that add a set, or a signal */
  lemma GrowingStep(w: World, e: Event)
    requires Inv(w) && Enabled(w, e) && (e.Create? || e.Raising?)
    ensures var w' := Next(w, e);
            && w'.sets == w.sets + (if e.Create? then [NewSet(e.mask)] else [])
            && w'.raised == w.raised + (if e.Raising? then [Data(e.signal, |e.targets|, e.targets)] else [])
  {
    hide SignalsRight, HandlersRight, SetRight, TargetsRight;
  }

  lemma NotifyingKeepsOnce(w: World, d: nat)
    requires Inv(w) && NotifiedOnce(w) && Enabled(w, Notifying(d))
    ensures NotifiedOnce(Next(w, Notifying(d)))
  {
    hide Next, Inv;
    NotifyingStep(w, d);
    var w', to := Next(w, Notifying(d)), w.raised[d].toNotify;
    assert to[0] in to;
    forall i | 0 <= i < |w'.sets|
      ensures HistoryOk(w', i)
    {
      assert HistoryOk(w, i);
      assert forall k :: 0 <= k < |to[1..]| ==> to[1..][k] == to[k + 1];
    }
  }

  lemma GrowingKeepsOnce(w: World, e: Event)
    requires Inv(w) && NotifiedOnce(w) && Enabled(w, e) && (e.Create? || e.Raising?)
    ensures NotifiedOnce(Next(w, e))
  {
    hide Next, Inv;
    GrowingStep(w, e);
    var w' := Next(w, e);
    forall i | 0 <= i < |w'.sets|
      ensures HistoryOk(w', i)
    {
      assert i < |w.sets| ==> HistoryOk(w, i);
    }
  }

  lemma NextNotifiesOnce(w: World, e: Event)
    requires Inv(w) && NotifiedOnce(w)
    ensures NotifiedOnce(Next(w, e))
  {
    hide Next, SignalsRight, HandlersRight, SetRight;
    if Enabled(w, e) && e.Notifying? {
      NotifyingKeepsOnce(w, e.d);
    } else if Enabled(w, e) && (e.Create? || e.Raising?) {
      GrowingKeepsOnce(w, e);
    } else {
      QuietStep(w, e);
      SameKeepsOnce(w, Next(w, e));
    }
  }

  lemma SameKeepsOnce(w: World, w': World)
    requires NotifiedOnce(w) && SameHistory(w, w')
    ensures NotifiedOnce(w')
  {
    forall i | 0 <= i < |w'.sets|
      ensures HistoryOk(w', i)
    {
      assert HistoryOk(w, i);
    }
  }

  lemma {:induction false} AlwaysNotifiedOnce(events: seq<Event>)
    ensures NotifiedOnce(RunFrom(events))
  {
    hide Inv, Next, NotifiedOnce;
    if events == [] {
      NothingNotified();
    } else {
      var n := |events| - 1;
      AlwaysNotifiedOnce(events[..n]);
      NextNotifiesOnce(RunFrom(events[..n]), events[n]);
    }
  }

  lemma NothingNotified()
    ensures NotifiedOnce(Init())
  {
  }

  // ----- from one state to a later one -----

  /** The signal is on its way to the set, or has got there. */
  ghost predicate Reaches(w: World, d: nat, i: nat) {
    d < |w.raised| && i < |w.sets| && (i in w.raised[d].toNotify || d in w.sets[i].notified)
  }

  /** Set `i` is not notified of signal `d` any more: its history goes on from `before` without `d`. */
  ghost predicate Quiet(before: World, w: World, d: nat, i: nat) {
    && d < |before.raised| <= |w.raised| && i !in w.raised[d].toNotify
    && |before.sets| <= |w.sets|
    && (i < |w.sets| ==>
          Was(before, i) <= w.sets[i].notified && d !in w.sets[i].notified[|Was(before, i)|..])
  }

  function Was(before: World, i: nat): seq<nat> {
    if i < |before.sets| then before.sets[i].notified else []
  }

  lemma NextReaches(w: World, e: Event, d: nat, i: nat)
    requires Inv(w) && Reaches(w, d, i)
    ensures Reaches(Next(w, e), d, i)
  {
    hide Next, Inv, SignalsRight, HandlersRight, SetRight, TargetsRight;
    if Enabled(w, e) && e.Notifying? {
      NotifyingStep(w, e.d);
      var to := w.raised[e.d].toNotify;
      assert to == [to[0]] + to[1..];
    } else if Enabled(w, e) && (e.Create? || e.Raising?) {
      GrowingStep(w, e);
    } else {
      QuietStep(w, e);
    }
  }

  lemma NextQuiet(before: World, w: World, e: Event, d: nat, i: nat)
    requires Inv(w) && Quiet(before, w, d, i)
    ensures Quiet(before, Next(w, e), d, i)
  {
    hide Next, Inv, SignalsRight, HandlersRight, SetRight, TargetsRight;
    if Enabled(w, e) && e.Notifying? {
      NotifyingStep(w, e.d);
      var to := w.raised[e.d].toNotify;
      assert to == [to[0]] + to[1..];
    } else if Enabled(w, e) && (e.Create? || e.Raising?) {
      GrowingStep(w, e);
    } else {
      QuietStep(w, e);
    }
  }

  /** Every set that a RaiseSignal found has been notified once that call is done, whatever else
      happens meanwhile. */
  lemma {:induction false} TargetsAreReached(w: World, events: seq<Event>, d: nat, i: nat)
    requires Inv(w) && Reaches(w, d, i)
    ensures var w' := Run(w, events);
            Reaches(w', d, i) && (w'.raised[d].toNotify == [] ==> d in w'.sets[i].notified)
  {
    hide Inv, Next, Reaches;
    if events != [] {
      var n := |events| - 1;
      TargetsAreReached(w, events[..n], d, i);
      NextReaches(Run(w, events[..n]), events[n], d, i);
    }
    ReachedAtTheEnd(Run(w, events), d, i);
  }

  lemma ReachedAtTheEnd(w: World, d: nat, i: nat)
    requires Reaches(w, d, i)
    ensures d < |w.raised| && i < |w.sets| && (w.raised[d].toNotify == [] ==> d in w.sets[i].notified)
  {
  }

  lemma {:induction false} StaysQuiet(w: World, events: seq<Event>, d: nat, i: nat)
    requires Inv(w) && d < |w.raised| && i !in w.raised[d].toNotify
    ensures Quiet(w, Run(w, events), d, i)
  {
    hide Inv, Next;
    if events != [] {
      hide Quiet;
      var n := |events| - 1;
      StaysQuiet(w, events[..n], d, i);
      NextQuiet(w, Run(w, events[..n]), events[n], d, i);
    }
  }

  // ----- the order of two signals -----

  /** Set `i` was notified of signal `e` before it was notified of `d`. */
  ghost predicate Inverted(w: World, i: nat, d: nat, e: nat) {
    i < |w.sets| && Before(w.sets[i].notified, e, d)
  }

  ghost predicate Before(s: seq<nat>, e: nat, d: nat) {
    exists p, q :: 0 <= p < q < |s| && s[p] == e && s[q] == d
  }

  /** A set that the RaiseSignal of `d` has notified, or does not want to, in particular any set if
      that call is done, never gets `d` after a signal `e` raised from then on. */
  lemma RaiseOrder(first: seq<Event>, later: seq<Event>, d: nat, e: nat, i: nat)
    requires d < |RunFrom(first).raised| <= e && i !in RunFrom(first).raised[d].toNotify
    ensures !Inverted(Run(RunFrom(first), later), i, d, e)
  {
    hide Inv, Next, Run, RunFrom, Quiet, NotifiedOnce, Inverted;
    AlwaysNotifiedOnce(first);
    StaysQuiet(RunFrom(first), later, d, i);
    OrderFollows(RunFrom(first), Run(RunFrom(first), later), d, e, i);
  }

  lemma OrderFollows(before: World, w: World, d: nat, e: nat, i: nat)
    requires NotifiedOnce(before) && Quiet(before, w, d, i) && e >= |before.raised|
    ensures !Inverted(w, i, d, e)
  {
    hide NotifiedOnce, Quiet;
    if i < |w.sets| {
      forall p, q | 0 <= p < q < |w.sets[i].notified| && w.sets[i].notified[p] == e
        ensures w.sets[i].notified[q] != d
      {
        NotAfter(before, w, d, i, p, q);
      }
    }
  }

  lemma NotAfter(before: World, w: World, d: nat, i: nat, p: nat, q: nat)
    requires NotifiedOnce(before) && Quiet(before, w, d, i) && i < |w.sets|
    requires p < q < |w.sets[i].notified| && w.sets[i].notified[p] >= |before.raised|
    ensures w.sets[i].notified[q] != d
  {
    hide NoDuplicates;
    var was, s := Was(before, i), w.sets[i].notified;
    assert i < |before.sets| ==> HistoryOk(before, i);
    assert forall k :: 0 <= k < |was| ==> was[k] in was && s[k] == was[k];
    assert p >= |was| && s[q] == s[|was|..][q - |was|];
  }

  /** Nor does a set that the RaiseSignal of `e` does not want to notify. */
  lemma NeverNotified(first: seq<Event>, signal: Signals, targets: seq<nat>, later: seq<Event>, d: nat, i: nat)
    requires Matching(RunFrom(first), signal, targets) && i !in targets
    ensures !Inverted(Run(Next(RunFrom(first), Raising(signal, targets)), later), i, d, |RunFrom(first).raised|)
  {
    hide Inv, Next, Run, RunFrom, Matching, NotifiedOnce;
    var w, e := RunFrom(first), |RunFrom(first).raised|;
    AlwaysNotifiedOnce(first);
    GrowingStep(w, Raising(signal, targets));
    StaysQuiet(Next(w, Raising(signal, targets)), later, e, i);
    NotInHistory(w, Run(Next(w, Raising(signal, targets)), later), e, i);
  }

  lemma NotInHistory(w: World, w': World, e: nat, i: nat)
    requires NotifiedOnce(w) && e >= |w.raised|
    requires i < |w'.sets| ==> Was(w, i) <= w'.sets[i].notified && e !in w'.sets[i].notified[|Was(w, i)|..]
    ensures i < |w'.sets| ==> e !in w'.sets[i].notified
  {
    hide NoDuplicates;
    if i < |w'.sets| {
      var was, s := Was(w, i), w'.sets[i].notified;
      assert i < |w.sets| ==> HistoryOk(w, i);
      assert s == was + s[|was|..];
    }
  }

  lemma {:induction false} RunConcat(w: World, a: seq<Event>, b: seq<Event>)
    requires Inv(w)
    ensures Run(w, a + b) == Run(Run(w, a), b)
  {
    hide Inv, Next;
    if b == [] {
      assert a + b == a;
    } else {
      var n := |b| - 1;
      RunConcat(w, a, b[..n]);
      assert (a + b)[..|a + b| - 1] == a + b[..n];
    }
  }

  /** The RaiseSignal of `d` goes on until it has notified set `i`. */
  lemma {:induction false} NotifyUntil(w: World, d: nat, i: nat) returns (events: seq<Event>)
    requires Inv(w) && d < |w.raised| && i < |w.sets| && i in w.raised[d].toNotify
    ensures var w' := Run(w, events);
            && |w'.raised| == |w.raised| && |w'.sets| == |w.sets|
            && w'.sets[i].notified == w.sets[i].notified + [d]
            && forall c :: 0 <= c < |w.raised| && c != d ==> w'.raised[c].toNotify == w.raised[c].toNotify
    decreases |w.raised[d].toNotify|
  {
    hide Inv, Next;
    var to, w1 := w.raised[d].toNotify, Next(w, Notifying(d));
    NotifyingStep(w, d);
    RunConcat(w, [], [Notifying(d)]);
    events := [Notifying(d)];
    assert Run(w, events) == w1;
    if to[0] != i {
      assert to == [to[0]] + to[1..];
      var rest := NotifyUntil(w1, d, i);
      RunConcat(w, events, rest);
      events := events + rest;
    }
  }

  /** The run in which the second call overtakes the first */
  lemma Overtakes(w: World, d: nat, e: nat, i: nat) returns (later: seq<Event>)
    requires Inv(w) && d < |w.raised| && e < |w.raised| && d != e && i < |w.sets|
    requires i in w.raised[d].toNotify && i in w.raised[e].toNotify
    ensures Inverted(Run(w, later), i, d, e)
  {
    hide Inv, Next, Run;
    var rest := NotifyUntil(w, e, i);
    later := NotifyUntil(Run(w, rest), d, i);
    RunConcat(w, rest, later);
    later := rest + later;
    var was, s := w.sets[i].notified, Run(w, later).sets[i].notified;
    assert s == was + [e] + [d];
    assert s[|was|] == e && s[|was| + 1] == d;
  }

  /** Two signals, the second raised while the first may still be on its way, reach all sets in the
      order in which they were raised, whatever happens later, exactly if no set still to be
      notified of the first wants the second. */
  lemma RaisedInOrderExactly(first: seq<Event>, d: nat, signal: Signals, targets: seq<nat>)
    requires d < |RunFrom(first).raised| && Matching(RunFrom(first), signal, targets)
    ensures var w := RunFrom(first);
            var w' := Next(w, Raising(signal, targets));
            (forall later, i: nat :: !Inverted(Run(w', later), i, d, |w.raised|)) <==>
            forall i :: i in w.raised[d].toNotify ==> i !in targets
  {
    hide Inv, Next, Run, RunFrom, Matching, Inverted;
    var w, raising := RunFrom(first), Raising(signal, targets);
    var w', e := Next(w, raising), |w.raised|;
    GrowingStep(w, raising);
    if forall i :: i in w.raised[d].toNotify ==> i !in targets {
      forall later, i: nat
        ensures !Inverted(Run(w', later), i, d, e)
      {
        if i in targets {
          RunOne(first, raising, later);
          RaiseOrder(first, [raising] + later, d, e, i);
        } else {
          NeverNotified(first, signal, targets, later, d, i);
        }
      }
    } else {
      var i :| i in w.raised[d].toNotify && i in targets;
      TargetExists(w, signal, targets, i);
      var later := Overtakes(w', d, e, i);
    }
  }

  lemma RunOne(first: seq<Event>, e: Event, later: seq<Event>)
    ensures Run(RunFrom(first), [e] + later) == Run(Next(RunFrom(first), e), later)
  {
    hide Inv, Next;
    RunConcat(RunFrom(first), [e], later);
    RunConcat(RunFrom(first), [], [e]);
    assert [e][..0] == [];
  }

  lemma TargetExists(w: World, signal: Signals, targets: seq<nat>, i: nat)
    requires Matching(w, signal, targets) && i in targets
    ensures i < |w.sets|
  {
  }

  // ----- the order of the handler calls -----

  /** The signals that deliveries from set `i` carry, in order */
  function DeliveredBy(cs: seq<Callback>, i: nat): seq<nat> {
    if cs == [] then []
    else DeliveredBy(cs[..|cs| - 1], i) + DeliveredIn(cs[|cs| - 1], i)
  }

  function DeliveredIn(c: Callback, i: nat): seq<nat> {
    if c.Deliver? && c.from == i then [c.data] else []
  }

  lemma DeliveredAppend(cs: seq<Callback>, c: Callback, i: nat)
    ensures DeliveredBy(cs + [c], i) == DeliveredBy(cs, i) + DeliveredIn(c, i)
  {
    assert (cs + [c])[..|cs|] == cs;
  }

  lemma {:induction false} DeliveredConcat(a: seq<Callback>, b: seq<Callback>, i: nat)
    ensures DeliveredBy(a + b, i) == DeliveredBy(a, i) + DeliveredBy(b, i)
  {
    if b == [] {
      assert a + b == a;
    } else {
      var n := |b| - 1;
      assert (a + b)[..|a + b| - 1] == a + b[..n];
      DeliveredConcat(a, b[..n], i);
    }
  }

  lemma {:induction false} NothingDelivered(cs: seq<Callback>, i: nat)
    requires forall c <- cs :: DeliveredIn(c, i) == []
    ensures DeliveredBy(cs, i) == []
  {
    if cs != [] {
      NothingDelivered(cs[..|cs| - 1], i);
    }
  }

  /** No delivery of the same set was posted earlier and is still to run. */
  ghost predicate InTurn(w: World, k: nat)
    requires k < |w.posted|
  {
    w.posted[k].Deliver? ==> forall c <- w.posted[..k] :: DeliveredIn(c, w.posted[k].from) == []
  }

  /** The deliveries of each set run first-in-first-out. */
  ghost predicate Queueing(events: seq<Event>) {
    events != [] ==>
      var before, e := events[..|events| - 1], events[|events| - 1];
      Queueing(before) && (e.Running? && e.k < |RunFrom(before).posted| ==> InTurn(RunFrom(before), e.k))
  }

  /** The handlers of set `i` have been called, and are about to be, with the signals it dispatched. */
  ghost predicate Handled(w: World, i: nat) {
    DeliveredBy(w.called, i) + DeliveredBy(w.posted, i) == if i < |w.sets| then w.sets[i].dispatched else []
  }

  lemma PostHandled(w: World, c: Callback, i: nat)
    requires Handled(w, i) && DeliveredIn(c, i) == []
    ensures Handled(Post(w, c), i)
  {
    DeliveredAppend(w.posted, c, i);
  }

  lemma DeliverHandled(w: World, j: nat, i: nat)
    requires Handled(w, i) && j < |w.sets| && w.sets[j].queue != []
    ensures Handled(DeliverNext(w, j), i)
  {
    hide DeliveredBy;
    var s := w.sets[j];
    if s.handler.Some? {
      var c := Deliver(s.handler.value, s.queue[0], j);
      DeliveredAppend(w.posted, c, i);
      ConcatAssociative(DeliveredBy(w.called, i), DeliveredBy(w.posted, i), DeliveredIn(c, i));
    }
  }

  lemma ReplaceHandled(w: World, j: nat, handler: Option<nat>, i: nat)
    requires Handled(w, i) && j < |w.sets|
    ensures Handled(ReplaceHandler(w, j, handler), i)
  {
    hide DeliveredBy;
    var s := w.sets[j];
    if s.handler.Some? {
      DeliveredAppend(w.posted, Cancel(s.handler.value), i);
    }
  }

  lemma {:induction false} DropHandled(w: World, j: nat, i: nat)
    requires Handled(w, i) && j < |w.sets|
    requires forall k :: 0 <= k < |w.sets[j].queue| ==> w.sets[j].queue[k] < |w.raised|
    ensures Handled(DropAll(w, j), i)
    decreases |w.sets[j].queue|
  {
    hide DeliveredBy;
    if w.sets[j].queue != [] {
      DeliveredAppend(w.posted, Cleanup(w.sets[j].queue[0]), i);
      DropHandled(DropOne(w, j), j, i);
    }
  }

  lemma DestroyedHandled(w: World, j: nat, i: nat)
    requires Handled(w, i) && j < |w.sets|
    requires forall k :: 0 <= k < |w.sets[j].queue| ==> w.sets[j].queue[k] < |w.raised|
    ensures Handled(Destroyed(w, j), i)
  {
    hide DeliveredBy;
    DropHandled(w, j, i);
    UnawaitedHandled(DropAll(w, j), j, i);
  }

  lemma UnawaitedHandled(w: World, j: nat, i: nat)
    requires Handled(w, i) && j < |w.sets|
    ensures Handled(Unawaited(w, j), i)
  {
    hide DeliveredBy;
    ReplaceHandled(w, j, None, i);
    if w.sets[j].queue != [] {
      DeliverHandled(ReplaceHandler(w, j, None), j, i);
    }
  }

  lemma AwaitedHandled(w: World, j: nat, i: nat)
    requires Handled(w, i) && j < |w.sets|
    ensures Handled(Awaited(w, j), i)
  {
    hide DeliveredBy;
    var w' := w.(handlers := w.handlers + 1);
    ReplaceHandled(w', j, Some(w.handlers), i);
    if w.sets[j].queue != [] {
      DeliverHandled(ReplaceHandler(w', j, Some(w.handlers)), j, i);
    }
  }

  lemma NotifyHandled(w: World, d: nat, i: nat)
    requires Handled(w, i) && d < |w.raised| && w.raised[d].toNotify != [] && w.raised[d].toNotify[0] < |w.sets|
    ensures Handled(Notify(w, d), i)
  {
    hide DeliveredBy;
    DeliverHandled(Pushed(w, d), w.raised[d].toNotify[0], i);
  }

  lemma ExecutedHandled(w: World, k: nat, i: nat)
    requires Handled(w, i) && k < |w.posted| && InTurn(w, k)
    requires w.posted[k].Deliver? ==> w.posted[k].data < |w.raised|
    ensures Handled(Executed(w, k), i)
  {
    hide DeliveredBy;
    var c, early, late := w.posted[k], w.posted[..k], w.posted[k + 1..];
    assert w.posted == early + [c] + late;
    DeliveredConcat(early, late, i);
    DeliveredConcat(early + [c], late, i);
    DeliveredAppend(early, c, i);
    DeliveredAppend(w.called, c, i);
    if DeliveredIn(c, i) != [] {
      NothingDelivered(early, i);
      ConcatAssociative(DeliveredBy(w.called, i), [c.data], DeliveredBy(late, i));
    }
  }

  lemma NextHandled(w: World, e: Event, i: nat)
    requires Inv(w) && Handled(w, i) && (e.Running? && e.k < |w.posted| ==> InTurn(w, e.k))
    ensures Handled(Next(w, e), i)
  {
    hide SignalsRight, HandlersRight, SetRight, TargetsRight, Handled, InTurn;
    if Enabled(w, e) {
      match e
      case Create(mask) => NewHandled(w, mask, i);
      case Await(j) => AwaitedHandled(w, j, i);
      case Unwait(j) => UnawaitedHandled(w, j, i);
      case Raising(signal, targets) => RaiseHandled(w, signal, targets, i);
      case Notifying(d) => NotifyKeepsInv(w, d); NotifyHandled(w, d, i);
      case Destroying(j) => QueuedIsRaised(w, j); DestroyedHandled(w, j, i);
      case Running(k) =>
        if w.posted[k].Deliver? {
          DeliveringIsRaised(w, k);
        }
        ExecutedHandled(w, k, i);
    }
  }

  lemma NewHandled(w: World, mask: Signals, i: nat)
    requires Handled(w, i)
    ensures Handled(w.(sets := w.sets + [NewSet(mask)]), i)
  {
  }

  lemma RaiseHandled(w: World, signal: Signals, targets: seq<nat>, i: nat)
    requires Handled(w, i)
    ensures Handled(Raise(w, signal, targets), i)
  {
  }

  lemma {:induction false} AlwaysHandled(events: seq<Event>, i: nat)
    requires Queueing(events)
    ensures Handled(RunFrom(events), i)
  {
    hide Inv, Next, Handled, InTurn;
    if events == [] {
      NothingHandled(i);
    } else {
      var n := |events| - 1;
      AlwaysHandled(events[..n], i);
      NextHandled(RunFrom(events[..n]), events[n], i);
    }
  }

  lemma NothingHandled(i: nat)
    ensures Handled(Init(), i)
  {
  }

  /** If posted deliveries run first-in-first-out, the handlers of a set are called with signals in
      the order in which it was notified of them: each exactly once, none left out; and once nothing
      is posted or queued, with all of them. */
  lemma HandledInOrder(events: seq<Event>, i: nat)
    requires Queueing(events) && i < |RunFrom(events).sets|
    ensures var w := RunFrom(events);
            var s := w.sets[i];
            && DeliveredBy(w.called, i) + DeliveredBy(w.posted, i) == s.dispatched
            && DeliveredBy(w.called, i) <= s.notified
            && (w.posted == [] && s.alive && s.queue == [] ==> DeliveredBy(w.called, i) == s.notified)
  {
    hide DeliveredBy, Run, Inv, RunFrom;
    AlwaysHandled(events, i);
    DeliversInOrder(events, i);
    PrefixOfPrefix(DeliveredBy(RunFrom(events).called, i), DeliveredBy(RunFrom(events).posted, i),
                   RunFrom(events).sets[i].notified);
    NonePosted(i);
  }

  lemma NonePosted(i: nat)
    ensures DeliveredBy([], i) == []
  {
  }

  lemma PrefixOfPrefix(a: seq<nat>, b: seq<nat>, c: seq<nat>)
    requires a + b <= c
    ensures a <= c
  {
    assert a == (a + b)[..|a|];
  }

  /** When two calls overlap, a set can be notified of the later one first. */
  lemma OverlappingRaises()
    ensures var events := [Create({0}), Raising({0}, [0]), Raising({0}, [0]), Notifying(1), Notifying(0)];
            RunFrom(events).sets == [Set(true, {0}, None, [1, 0], [1, 0], [])]
  {
    hide Inv, Next, Matching, Notify;
    var events := [Create({0}), Raising({0}, [0]), Raising({0}, [0]), Notifying(1), Notifying(0)];
    var s, data, done := NewSet({0}), Data({0}, 1, [0]), Data({0}, 1, []);
    assert events[..0] == [] && events[..5] == events;
    RunOn(events, 1);
    var w1 := Init().(sets := [s]);
    CreatesFirst();
    RunOn(events, 2);
    OneTarget(w1);
    var w2 := w1.(raised := [data]);
    PlainStep(w1, events[1]);
    assert Raise(w1, {0}, [0]).raised == [data];
    RunOn(events, 3);
    OneTarget(w2);
    var w3 := w1.(raised := [data, data]);
    PlainStep(w2, events[2]);
    assert Raise(w2, {0}, [0]).raised == [data, data];
    RunOn(events, 4);
    var w4 := World([s.(queue := [1], notified := [1])], [data, done], [], 0, [], []);
    PlainStep(w3, events[3]);
    SecondGoesFirst();
    RunOn(events, 5);
    PlainStep(w4, events[4]);
    FirstGoesSecond();
  }

  lemma SecondGoesFirst()
    ensures var s, data, done := NewSet({0}), Data({0}, 1, [0]), Data({0}, 1, []);
            Notify(World([s], [data, data], [], 0, [], []), 1) ==
            World([s.(queue := [1], notified := [1])], [data, done], [], 0, [], [])
  {
    var s, data, done := NewSet({0}), Data({0}, 1, [0]), Data({0}, 1, []);
    assert [0][1..] == [] && [] + [1] == [1];
    assert [data, data][1 := done] == [data, done];
    var w := Notify(World([s], [data, data], [], 0, [], []), 1);
    assert w.sets == [s.(queue := [1], notified := [1])];
  }

  lemma FirstGoesSecond()
    ensures var s, data, done := NewSet({0}), Data({0}, 1, [0]), Data({0}, 1, []);
            var w := World([s.(queue := [1], notified := [1])], [data, done], [], 0, [], []);
            Notify(w, 0).sets == [s.(queue := [1, 0], notified := [1, 0])]
  {
    assert [1] + [0] == [1, 0];
  }

  lemma CreatesFirst()
    ensures Next(Init(), Create({0})) == Init().(sets := [NewSet({0})])
  {
    hide Inv;
    InitInv();
  }

  lemma OneTarget(w: World)
    requires w.sets == [NewSet({0})]
    ensures Matching(w, {0}, [0])
  {
    assert 0 in {0} * {0};
  }

  lemma PlainStep(w: World, e: Event)
    requires Inv(w) && Enabled(w, e)
    ensures e.Raising? ==> Next(w, e) == Raise(w, e.signal, e.targets)
    ensures e.Notifying? ==> w.raised[e.d].toNotify[0] < |w.sets| && Next(w, e) == Notify(w, e.d)
  {
    hide SignalsRight, HandlersRight, SetRight;
    if e.Notifying? {
      NotifyKeepsInv(w, e.d);
    }
  }

  lemma RunOn(events: seq<Event>, n: nat)
    requires 0 < n <= |events|
    ensures RunFrom(events[..n]) == Next(RunFrom(events[..n - 1]), events[n - 1])
  {
    hide Inv, Next;
    assert events[..n][..n - 1] == events[..n - 1];
  }
}
