/** The ring buffer as a lock-free queue between one producer and one consumer. Every load,
    store and copied byte is a step of its own; the two sides interleave in any way. A side
    works on the indices it loaded when it started, however stale they are by then. Loads and
    stores are sequentially consistent. */
module SpscRing {
  import opened Common
  import opened RingBuffer

  /** How far a side may go: Write, Read and Discard finish all bytes they decided on; users of
      FirstWriteArray and FirstReadArray finish part of one contiguous piece; PopUntil stops
      anywhere. */
  datatype Mode = Whole | Piece | Walk

  /** A side between loading the indices and storing its own. */
  datatype Writer = NotWriting | Writing(limit: nat, data: seq<byte>, copied: nat, mode: Mode)
  datatype Reader = NotReading | Reading(limit: nat, copied: seq<byte>, mode: Mode)

  /** `written` is the stream of published bytes, `released` how many of them the consumer has
      given up, `consumed` what it made of each of these, None for one that it discarded, and
      `observed` the bytes it saw with their positions in the stream. */
  datatype State = State(
    slots: seq<byte>,
    writeIdx: nat,
    readIdx: nat,
    writer: Writer,
    reader: Reader,
    written: seq<byte>,
    released: nat,
    consumed: seq<Option<byte>>,
    observed: seq<(nat, byte)>
  )

  function Init(capacity: nat): State {
    State(seq(capacity + 1, _ => 0), 0, 0, NotWriting, NotReading, [], 0, [], [])
  }

  datatype Step =
    | LoadForWrite(data: seq<byte>)  // Write
    | LoadForFill(data: seq<byte>)   // FirstWriteArray; data is what will be put there
    | PutByte
    | Publish(n: nat)                // the store at the end of Write or CommitFirstWriteArray
    | LoadForRead(max: nat)          // Read, Discard
    | LoadForPiece                   // FirstReadArray
    | LoadForWalk                    // PopUntil
    | GetByte
    | Release(n: nat)                // the store at the end of Read, PopUntil or CommitFirstReadArray
    | Discard                        // the store at the end of Discard

  function Size(s: State): nat {
    |s.slots|
  }

  ghost predicate Indexed(s: State) {
    s.writeIdx < Size(s) <= MAX_VECTOR_SIZE && s.readIdx < Size(s)
  }

  /** The slot the producer copies to next, and the one the consumer copies from next. */
  function PutSlot(s: State): nat
    requires s.writer.Writing?
  {
    Wrap(s.writeIdx + s.writer.copied, Size(s))
  }

  function GetSlot(s: State): nat
    requires s.reader.Reading?
  {
    Wrap(s.readIdx + |s.reader.copied|, Size(s))
  }

  ghost predicate Enabled(s: State, step: Step)
    requires Indexed(s)
  {
    match step
    case LoadForWrite(_) => s.writer.NotWriting?
    case LoadForFill(data) => s.writer.NotWriting? && |data| <= WritePieceAt(Size(s), s.writeIdx, s.readIdx)
    case PutByte => s.writer.Writing? && s.writer.copied < |s.writer.data| && PutSlot(s) < Size(s)
    case Publish(n) =>
      s.writer.Writing? && n <= s.writer.copied && (s.writer.mode.Whole? ==> n == |s.writer.data|)
    case LoadForRead(_) => s.reader.NotReading?
    case LoadForPiece => s.reader.NotReading?
    case LoadForWalk => s.reader.NotReading?
    case GetByte => s.reader.Reading? && |s.reader.copied| < s.reader.limit && GetSlot(s) < Size(s)
    case Release(n) =>
      s.reader.Reading? && n <= |s.reader.copied| && (s.reader.mode.Whole? ==> n == s.reader.limit)
    case Discard => s.reader.Reading? && s.reader.mode.Whole? && s.reader.copied == []
  }

  ghost function Next(s: State, step: Step): State
    requires Indexed(s) && Enabled(s, step)
  {
    match step
    case LoadForWrite(data) =>
      var limit := Min(|data|, WritableAt(Size(s), s.writeIdx, s.readIdx));
      s.(writer := Writing(limit, data[..limit], 0, Whole))
    case LoadForFill(data) =>
      s.(writer := Writing(WritePieceAt(Size(s), s.writeIdx, s.readIdx), data, 0, Piece))
    case PutByte =>
      s.(slots := s.slots[PutSlot(s) := s.writer.data[s.writer.copied]],
         writer := s.writer.(copied := s.writer.copied + 1))
    case Publish(n) =>
      s.(writeIdx := Wrap(s.writeIdx + n, Size(s)), writer := NotWriting,
         written := s.written + s.writer.data[..Min(n, |s.writer.data|)])
    case LoadForRead(max) =>
      s.(reader := Reading(Min(max, ReadableAt(Size(s), s.writeIdx, s.readIdx)), [], Whole))
    case LoadForPiece =>
      s.(reader := Reading(ReadPieceAt(Size(s), s.writeIdx, s.readIdx), [], Piece))
    case LoadForWalk =>
      s.(reader := Reading(ReadableAt(Size(s), s.writeIdx, s.readIdx), [], Walk))
    case GetByte =>
      var b := s.slots[GetSlot(s)];
      s.(reader := s.reader.(copied := s.reader.copied + [b]),
         observed := s.observed + [(s.released + |s.reader.copied|, b)])
    case Release(n) =>
      GiveUp(s, seq(n, k requires 0 <= k < n => Some(s.reader.copied[k])))
    case Discard =>
      GiveUp(s, seq(s.reader.limit, _ => None))
  }

  /** The store of the read index */
  function GiveUp(s: State, taken: seq<Option<byte>>): State {
    s.(readIdx := Wrap(s.readIdx + |taken|, Size(s)), released := s.released + |taken|,
       consumed := s.consumed + taken, reader := NotReading)
  }

  // ----- the invariant -----

  /** The slot of stream position `p` in a buffer of `size` slots. */
  function SlotAt(size: nat, p: nat): (i: nat)
    requires size > 0
    ensures i < size
    decreases p
  {
    if p < size then p else SlotAt(size, p - size)
  }

  function SlotOf(s: State, p: nat): nat
    requires Size(s) > 0
  {
    SlotAt(Size(s), p)
  }

  ghost predicate Counters(s: State) {
    && 0 < Size(s) <= MAX_VECTOR_SIZE
    && s.released <= |s.written| < s.released + Size(s)
    && s.writeIdx == SlotOf(s, |s.written|)
    && s.readIdx == SlotOf(s, s.released)
  }

  /** Between the two indices, seen from the consumer, stand the published bytes not yet released. */
  ghost predicate SlotsHold(s: State)
    requires Size(s) > 0
  {
    forall p :: s.released <= p < |s.written| ==> s.slots[SlotOf(s, p)] == s.written[p]
  }

  /** The producer stays within the free slots, and what it has copied is in place. */
  ghost predicate WriterOk(s: State)
    requires Size(s) > 0
  {
    s.writer.Writing? ==>
      && s.writer.copied <= |s.writer.data| <= s.writer.limit
      && |s.written| + s.writer.limit < s.released + Size(s)
      && (s.writer.mode.Whole? ==> |s.writer.data| == s.writer.limit)
      && (s.writer.mode.Piece? ==> s.writeIdx + s.writer.limit <= Size(s))
      && forall k :: 0 <= k < s.writer.copied ==> s.slots[SlotOf(s, |s.written| + k)] == s.writer.data[k]
  }

  /** The consumer stays within the published bytes, and has copied the right ones. */
  ghost predicate ReaderOk(s: State) {
    s.reader.Reading? ==>
      && |s.reader.copied| <= s.reader.limit && s.released + s.reader.limit <= |s.written|
      && s.reader.copied == s.written[s.released..s.released + |s.reader.copied|]
      && (s.reader.mode.Piece? ==> s.readIdx + s.reader.limit <= Size(s))
  }

  /** Whatever the consumer saw at a position is what the producer published there. */
  ghost predicate ObservedOk(s: State) {
    forall o <- s.observed :: o.0 < |s.written| && o.1 == s.written[o.0]
  }

  /** Whatever it released after reading it is what was published there. */
  ghost predicate ConsumedOk(s: State) {
    && |s.consumed| == s.released <= |s.written|
    && forall i :: 0 <= i < |s.consumed| ==> s.consumed[i].None? || s.consumed[i] == Some(s.written[i])
  }

  ghost predicate Inv(s: State) {
    Counters(s) && SlotsHold(s) && WriterOk(s) && ReaderOk(s) && ObservedOk(s) && ConsumedOk(s)
  }

  lemma InitInv(capacity: nat)
    requires capacity + 1 <= MAX_VECTOR_SIZE
    ensures Inv(Init(capacity))
  {
  }

  // ----- arithmetic -----

  /** Advancing an index is advancing a stream position. */
  lemma {:induction false} AdvanceIndex(size: nat, p: nat, n: nat)
    requires 0 < size && n <= size
    ensures Wrap(SlotAt(size, p) + n, size) == SlotAt(size, p + n)
    decreases p
  {
    if p >= size {
      AdvanceIndex(size, p - size, n);
    }
  }

  /** Positions less than a buffer apart have different slots. */
  lemma SlotsDiffer(size: nat, p: nat, p': nat)
    requires p < p' < p + size
    ensures SlotAt(size, p) != SlotAt(size, p')
  {
    hide SlotAt;
    AdvanceIndex(size, p, p' - p);
  }

  lemma Available(s: State)
    requires Counters(s)
    ensures Indexed(s)
    ensures ReadableAt(Size(s), s.writeIdx, s.readIdx) == |s.written| - s.released
    ensures |s.written| + WritableAt(Size(s), s.writeIdx, s.readIdx) < s.released + Size(s)
  {
    hide SlotAt;
    AdvanceIndex(Size(s), s.released, |s.written| - s.released);
  }

  // ----- preservation -----

  lemma PutByteKeepsInv(s: State)
    requires Inv(s) && Indexed(s) && Enabled(s, PutByte)
    ensures Inv(Next(s, PutByte))
  {
    hide SlotAt;
    var s' := Next(s, PutByte);
    var p := |s.written| + s.writer.copied;
    AdvanceIndex(Size(s), |s.written|, s.writer.copied);
    forall q | s.released <= q < p
      ensures SlotOf(s, q) != PutSlot(s) && s'.slots[SlotOf(s', q)] == s.slots[SlotOf(s, q)]
    {
      SlotsDiffer(Size(s), q, p);
    }
  }

  lemma PublishKeepsInv(s: State, n: nat)
    requires Inv(s) && Indexed(s) && Enabled(s, Publish(n))
    ensures Inv(Next(s, Publish(n)))
  {
    hide SlotAt;
    AdvanceIndex(Size(s), |s.written|, n);
    var s' := Next(s, Publish(n));
    forall p | s.released <= p < |s'.written|
      ensures s'.slots[SlotOf(s', p)] == s'.written[p]
    {
      if p >= |s.written| {
        assert s.slots[SlotOf(s, |s.written| + (p - |s.written|))] == s.writer.data[p - |s.written|];
      }
    }
  }

  lemma GetByteKeepsInv(s: State)
    requires Inv(s) && Indexed(s) && Enabled(s, GetByte)
    ensures Inv(Next(s, GetByte))
  {
    hide SlotAt;
    AdvanceIndex(Size(s), s.released, |s.reader.copied|);
  }

  lemma GiveUpKeepsInv(s: State, taken: seq<Option<byte>>)
    requires Inv(s) && s.reader.Reading? && |taken| <= s.reader.limit
    requires forall k :: 0 <= k < |taken| && taken[k].Some? ==>
               k < |s.reader.copied| && taken[k].value == s.reader.copied[k]
    ensures Inv(GiveUp(s, taken))
  {
    hide SlotAt;
    AdvanceIndex(Size(s), s.released, |taken|);
  }

  lemma CopiedWithinLimit(s: State)
    requires Inv(s) && s.reader.Reading?
    ensures |s.reader.copied| <= s.reader.limit
  {
  }

  lemma LoadForWritingKeepsInv(s: State, step: Step)
    requires Inv(s) && Indexed(s) && Enabled(s, step) && (step.LoadForWrite? || step.LoadForFill?)
    ensures Inv(Next(s, step))
  {
    hide SlotAt;
    Available(s);
  }

  lemma LoadForReadingKeepsInv(s: State, step: Step)
    requires Inv(s) && Indexed(s) && Enabled(s, step)
    requires step.LoadForRead? || step.LoadForPiece? || step.LoadForWalk?
    ensures Inv(Next(s, step))
  {
    hide SlotAt;
    Available(s);
  }

  lemma StepKeepsInv(s: State, step: Step)
    requires Inv(s) && Indexed(s) && Enabled(s, step)
    ensures Inv(Next(s, step))
  {
    hide SlotAt, Inv;
    match step
    case PutByte => PutByteKeepsInv(s);
    case Publish(n) => PublishKeepsInv(s, n);
    case GetByte => GetByteKeepsInv(s);
    case Release(n) =>
      CopiedWithinLimit(s);
      GiveUpKeepsInv(s, seq(n, k requires 0 <= k < n => Some(s.reader.copied[k])));
    case Discard => GiveUpKeepsInv(s, seq(s.reader.limit, _ => None));
    case LoadForWrite(_) => LoadForWritingKeepsInv(s, step);
    case LoadForFill(_) => LoadForWritingKeepsInv(s, step);
    case _ => LoadForReadingKeepsInv(s, step);
  }

  // ----- runs -----

  /** The state after the steps; steps that are not enabled do not happen. */
  ghost function Run(s: State, steps: seq<Step>): (s': State)
    requires Inv(s)
    ensures Inv(s')
  {
    hide SlotAt;
    if steps == [] then s
    else
      var before := Run(s, steps[..|steps| - 1]);
      var step := steps[|steps| - 1];
      Available(before);
      if Enabled(before, step) then StepKeepsInv(before, step); Next(before, step) else before
  }

  /** A run goes on with every step that is enabled, and passes over the others. */
  lemma RunGoesOn(s: State, steps: seq<Step>, step: Step)
    requires Inv(s)
    ensures Indexed(Run(s, steps))
    ensures Run(s, []) == s
    ensures Run(s, steps + [step]) ==
            if Enabled(Run(s, steps), step) then Next(Run(s, steps), step) else Run(s, steps)
  {
    hide SlotAt, Next, Enabled;
    assert (steps + [step])[..|steps|] == steps;
    Available(Run(s, steps));
  }

  /** Copying stays within the buffer, and in no interleaving do the two sides touch the same slot. */
  lemma SlotsDisjoint(s: State)
    requires Inv(s)
    ensures var putting := s.writer.Writing? && s.writer.copied < s.writer.limit;
            var getting := s.reader.Reading? && |s.reader.copied| < s.reader.limit;
            && (putting ==> PutSlot(s) < Size(s))
            && (getting ==> GetSlot(s) < Size(s))
            && (putting && getting ==> PutSlot(s) != GetSlot(s))
  {
    hide SlotAt;
    if s.writer.Writing? && s.writer.copied < s.writer.limit {
      AdvanceIndex(Size(s), |s.written|, s.writer.copied);
    }
    if s.reader.Reading? && |s.reader.copied| < s.reader.limit {
      AdvanceIndex(Size(s), s.released, |s.reader.copied|);
      if s.writer.Writing? && s.writer.copied < s.writer.limit {
        SlotsDiffer(Size(s), s.released + |s.reader.copied|, |s.written| + s.writer.copied);
      }
    }
  }

  /** A piece handed out stays committable, whatever the other side has done since: it is still
      part of what FirstWriteArray, or FirstReadArray, would hand out now. */
  lemma PiecesStayCommittable(s: State)
    requires Inv(s)
    ensures Indexed(s)
    ensures s.writer.Writing? && s.writer.mode.Piece? ==>
              s.writer.limit <= WritePieceAt(Size(s), s.writeIdx, s.readIdx)
    ensures s.reader.Reading? && s.reader.mode.Piece? ==>
              s.reader.limit <= ReadPieceAt(Size(s), s.writeIdx, s.readIdx)
  {
    hide SlotAt;
    Available(s);
  }

  // ----- each step, told by the two streams -----

  /** How many bytes are published and not released, and how many more may be */
  function Unread(s: State): int {
    |s.written| - s.released
  }

  function Free(s: State): int {
    Size(s) - 1 - Unread(s)
  }

  ghost predicate ByProducer(step: Step) {
    step.LoadForWrite? || step.LoadForFill? || step.PutByte? || step.Publish?
  }

  /** Every step does to the streams what it does to a bounded queue: a side that starts may go as
      far as there is room, or bytes, at that moment; bytes come out as they went in; what is
      published is what was copied, and what is released what was read. */
  lemma StepOnStreams(s: State, step: Step)
    requires Inv(s) && Indexed(s) && Enabled(s, step)
    ensures Free(s) >= 0 && Unread(s) >= 0
    ensures var s' := Next(s, step);
            && Size(s') == Size(s)
            && (if ByProducer(step) then
                  && s'.reader == s.reader && s'.readIdx == s.readIdx && s'.released == s.released
                  && s'.consumed == s.consumed && s'.observed == s.observed
                else
                  && s'.slots == s.slots && s'.writer == s.writer
                  && s'.writeIdx == s.writeIdx && s'.written == s.written)
            && match step
               case LoadForWrite(data) =>
                 var n := Min(|data|, Free(s));
                 s' == s.(writer := Writing(n, data[..n], 0, Whole))
               case LoadForFill(data) =>
                 s' == s.(writer := Writing(Min(Free(s), Size(s) - s.writeIdx), data, 0, Piece))
               case PutByte =>
                 && s'.written == s.written && s'.writer == s.writer.(copied := s.writer.copied + 1)
                 && s'.slots == s.slots[SlotOf(s, |s.written| + s.writer.copied) := s.writer.data[s.writer.copied]]
               case Publish(n) =>
                 && n <= |s.writer.data| && s'.written == s.written + s.writer.data[..n]
                 && s'.writer.NotWriting? && s'.slots == s.slots
               case LoadForRead(max) => s' == s.(reader := Reading(Min(max, Unread(s)), [], Whole))
               case LoadForPiece => s' == s.(reader := Reading(Min(Unread(s), Size(s) - s.readIdx), [], Piece))
               case LoadForWalk => s' == s.(reader := Reading(Unread(s), [], Walk))
               case GetByte =>
                 var at := s.released + |s.reader.copied|;
                 && at < |s.written| && s'.reader == s.reader.(copied := s.reader.copied + [s.written[at]])
                 && s'.observed == s.observed + [(at, s.written[at])]
                 && s'.released == s.released && s'.consumed == s.consumed
               case Release(n) =>
                 && s.released + n <= |s.written| && s'.released == s.released + n && s'.reader.NotReading?
                 && s'.consumed ==
                      s.consumed + seq(n, k requires 0 <= k < n => Some(s.written[s.released + k]))
               case Discard =>
                 && s'.released == s.released + s.reader.limit && s'.reader.NotReading?
                 && s'.consumed == s.consumed + seq(s.reader.limit, _ => None)
  {
    hide SlotAt, SlotsHold, ObservedOk, Wrap;
    Available(s);
    match step
    case PutByte => PutPlace(s);
    case GetByte => GottenByte(s);
    case Release(n) =>
      assert seq(n, k requires 0 <= k < n => Some(s.reader.copied[k])) ==
             seq(n, k requires 0 <= k < n => Some(s.written[s.released + k]));
    case _ =>
  }

  lemma PutPlace(s: State)
    requires Inv(s) && s.writer.Writing? && s.writer.copied < |s.writer.data|
    ensures PutSlot(s) == SlotOf(s, |s.written| + s.writer.copied)
  {
    hide SlotAt;
    AdvanceIndex(Size(s), |s.written|, s.writer.copied);
  }

  lemma GottenByte(s: State)
    requires Inv(s) && s.reader.Reading? && |s.reader.copied| < s.reader.limit
    ensures s.released + |s.reader.copied| < |s.written| && GetSlot(s) < Size(s)
    ensures s.slots[GetSlot(s)] == s.written[s.released + |s.reader.copied|]
  {
    hide SlotAt;
    AdvanceIndex(Size(s), s.released, |s.reader.copied|);
  }

  /** No side ever waits for the other: one that has started can go on and finish. */
  lemma NobodyWaits(s: State)
    requires Inv(s)
    ensures Indexed(s)
    ensures match s.writer
            case NotWriting => forall data :: Enabled(s, LoadForWrite(data))
            case Writing(_, data, copied, mode) =>
              && (copied < |data| ==> Enabled(s, PutByte))
              && (copied == |data| ==> Enabled(s, Publish(copied)))
              && (mode != Whole ==> Enabled(s, Publish(copied)))
    ensures match s.reader
            case NotReading =>
              Enabled(s, LoadForPiece) && Enabled(s, LoadForWalk) && forall n :: Enabled(s, LoadForRead(n))
            case Reading(limit, copied, mode) =>
              && (|copied| < limit ==> Enabled(s, GetByte))
              && (|copied| == limit ==> Enabled(s, Release(limit)))
              && (mode != Whole ==> Enabled(s, Release(|copied|)))
              && (mode == Whole && copied == [] ==> Enabled(s, Discard))
  {
    hide SlotAt;
    Available(s);
    SlotsDisjoint(s);
  }

  // ----- reading in sequence -----

  ghost predicate NoGaps(consumed: seq<Option<byte>>) {
    forall i :: 0 <= i < |consumed| ==> consumed[i].Some?
  }

  lemma NextLeavesNoGap(s: State, step: Step)
    requires Inv(s) && Indexed(s) && Enabled(s, step) && step != Discard && NoGaps(s.consumed)
    ensures NoGaps(Next(s, step).consumed)
  {
    hide SlotAt;
  }

  lemma {:induction false} OnlyDiscardLeavesGaps(s: State, steps: seq<Step>)
    requires Inv(s) && NoGaps(s.consumed) && Discard !in steps
    ensures NoGaps(Run(s, steps).consumed)
  {
    hide SlotAt, Next, Inv, NoGaps;
    if steps != [] {
      var before, step := Run(s, steps[..|steps| - 1]), steps[|steps| - 1];
      OnlyDiscardLeavesGaps(s, steps[..|steps| - 1]);
      CountersHold(before);
      Available(before);
      if Enabled(before, step) {
        NextLeavesNoGap(before, step);
      }
    }
  }

  lemma CountersHold(s: State)
    requires Inv(s)
    ensures Counters(s) && ConsumedOk(s)
  {
  }

  /** In every run the consumer goes through the stream from its beginning, position by position:
      each byte that it read and released is the one written there, whether it was read whole, in
      committed parts or byte by byte; nothing is repeated, and only Discard skips anything. So
      without it the bytes read are a prefix of the bytes written. */
  lemma ReadIsPrefix(capacity: nat, steps: seq<Step>)
    requires capacity + 1 <= MAX_VECTOR_SIZE
    ensures Inv(Init(capacity))
    ensures var s := Run(Init(capacity), steps);
            && |s.consumed| <= |s.written|
            && (forall i :: 0 <= i < |s.consumed| ==> s.consumed[i].None? || s.consumed[i] == Some(s.written[i]))
            && (Discard !in steps ==> forall i :: 0 <= i < |s.consumed| ==> s.consumed[i] == Some(s.written[i]))
  {
    hide SlotAt, Run, Inv;
    InitInv(capacity);
    var s := Run(Init(capacity), steps);
    CountersHold(s);
    if Discard !in steps {
      OnlyDiscardLeavesGaps(Init(capacity), steps);
    }
  }
}
