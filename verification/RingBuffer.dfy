/** LockFreeRingBuffer: a circular buffer of `capacity + 1` slots, one of which always
    stays free, addressed by a read and a write index. */
module RingBuffer {
  import opened Common

  /** std::size_t is 64 bits wide and its subtraction wraps around. */
  const SIZE_T_VALUES := 0x1_0000_0000_0000_0000

  /** The largest std::vector of bytes. */
  const MAX_VECTOR_SIZE := 0x7FFF_FFFF_FFFF_FFFF

  /** `i` reduced into a buffer of `size` slots, for `i` less than `2 * size`. */
  function Wrap(i: nat, size: nat): nat {
    if i < size then i else i - size
  }

  // ----- index arithmetic, for `size` slots -----

  function ReadableAt(size: nat, writeIdx: nat, readIdx: nat): (n: nat)
    requires writeIdx < size && readIdx < size
    ensures n < size
    ensures Wrap(readIdx + n, size) == writeIdx
  {
    if writeIdx >= readIdx then writeIdx - readIdx else writeIdx + size - readIdx
  }

  /** The source subtracts unsigned values first, wrapping below zero, and adds the size
      afterwards; readable and writable bytes always add up to the capacity. */
  function WritableAt(size: nat, writeIdx: nat, readIdx: nat): (n: nat)
    requires writeIdx < size && readIdx < size <= MAX_VECTOR_SIZE
    ensures n + ReadableAt(size, writeIdx, readIdx) == size - 1
  {
    var n := (readIdx - writeIdx - 1) % SIZE_T_VALUES;
    if writeIdx >= readIdx then (n + size) % SIZE_T_VALUES else n
  }

  /** The length of FirstReadArray */
  function ReadPieceAt(size: nat, writeIdx: nat, readIdx: nat): (n: nat)
    requires writeIdx < size && readIdx < size
    ensures n == Min(ReadableAt(size, writeIdx, readIdx), size - readIdx)
  {
    if writeIdx < readIdx then size - readIdx else writeIdx - readIdx
  }

  /** The length of FirstWriteArray */
  function WritePieceAt(size: nat, writeIdx: nat, readIdx: nat): (n: nat)
    requires writeIdx < size && readIdx < size <= MAX_VECTOR_SIZE
    ensures n == Min(WritableAt(size, writeIdx, readIdx), size - writeIdx)
  {
    if writeIdx < readIdx then readIdx - writeIdx - 1
    else size - writeIdx - (if readIdx == 0 then 1 else 0)
  }

  // ----- the abstract bounded queue -----

  /** A queue of at most `capacity` bytes, and the slot that holds its first byte. */
  datatype Ring = Ring(capacity: nat, start: nat, bytes: seq<byte>) {

    ghost predicate Valid() {
      |bytes| <= capacity && start <= capacity
    }

    function Free(): nat
      requires Valid()
    {
      capacity - |bytes|
    }

    /** The slot behind the last byte. */
    function End(): nat
      requires Valid()
    {
      Wrap(start + |bytes|, capacity + 1)
    }

    /** How many of the bytes lie in one piece before the end of the slots. */
    function FirstReadLength(): nat
      requires Valid()
    {
      Min(|bytes|, capacity + 1 - start)
    }

    /** How many free slots lie in one piece behind the last byte. */
    function FirstWriteLength(): nat
      requires Valid()
    {
      Min(Free(), capacity + 1 - End())
    }

    function Append(data: seq<byte>): Ring
      requires Valid() && |data| <= Free()
    {
      this.(bytes := bytes + data)
    }

    function Drop(n: nat): Ring
      requires Valid() && n <= |bytes|
    {
      Ring(capacity, Wrap(start + n, capacity + 1), bytes[n..])
    }
  }

  /** One contiguous piece exists exactly when there is anything to transfer, so a
      zero-length transfer is asked for only on an empty, or a full, buffer. */
  lemma FirstPiecesNonEmpty(r: Ring)
    requires r.Valid()
    ensures r.FirstReadLength() == 0 <==> r.bytes == []
    ensures r.FirstWriteLength() == 0 <==> r.Free() == 0
  {
  }

  /** A piece handed out to the reader stays valid, with the same bytes, while the writer
      appends; one handed out to the writer stays free while the reader drops. */
  lemma FirstPiecesStable(r: Ring, data: seq<byte>, n: nat)
    requires r.Valid() && |data| <= r.Free() && n <= |r.bytes|
    ensures var r' := r.Append(data);
            r'.Valid() && r'.start == r.start && r.FirstReadLength() <= r'.FirstReadLength() &&
            r'.bytes[..r.FirstReadLength()] == r.bytes[..r.FirstReadLength()]
    ensures var r' := r.Drop(n);
            r'.Valid() && r'.End() == r.End() && r.FirstWriteLength() <= r'.FirstWriteLength()
  {
  }

  /** `n` slots from slot `start` on, continuing at slot 0. */
  ghost function Circular(slots: seq<byte>, start: nat, n: nat): (bytes: seq<byte>)
    requires start < |slots| && n <= |slots|
    ensures |bytes| == n
    ensures forall k :: 0 <= k < n ==> bytes[k] == slots[Wrap(start + k, |slots|)]
  {
    seq(n, k requires 0 <= k < n => slots[Wrap(start + k, |slots|)])
  }

  /** `slots'` is `slots` with `data` written to the slots from `at` on, continuing at slot 0. */
  ghost predicate Written(slots: seq<byte>, slots': seq<byte>, at: nat, data: seq<byte>)
    requires at < |slots| && |data| <= |slots|
  {
    && |slots'| == |slots|
    && (forall k :: 0 <= k < |data| ==> slots'[Wrap(at + k, |slots|)] == data[k])
    && (forall i :: 0 <= i < |slots| && !(at <= i < at + |data|) && !(at <= i + |slots| < at + |data|) ==>
          slots'[i] == slots[i])
  }

  lemma CircularAppend(slots: seq<byte>, slots': seq<byte>, start: nat, n: nat, data: seq<byte>)
    requires start < |slots| && n + |data| < |slots|
    requires Written(slots, slots', Wrap(start + n, |slots|), data)
    ensures Circular(slots', start, n + |data|) == Circular(slots, start, n) + data
  {
    var size := |slots|;
    forall k | 0 <= k < n + |data|
      ensures slots'[Wrap(start + k, size)] == (Circular(slots, start, n) + data)[k]
    {
      if k >= n {
        assert Wrap(Wrap(start + n, size) + (k - n), size) == Wrap(start + k, size);
      }
    }
  }

  lemma CircularDrop(slots: seq<byte>, start: nat, n: nat, k: nat)
    requires start < |slots| && k <= n < |slots|
    ensures Circular(slots, Wrap(start + k, |slots|), n - k) == Circular(slots, start, n)[k..]
  {
    var dropped := Circular(slots, Wrap(start + k, |slots|), n - k);
    forall i | 0 <= i < n - k
      ensures dropped[i] == Circular(slots, start, n)[k + i]
    {
    }
  }

  // ----- the buffer itself -----

  class LockFreeRingBuffer {
    var write_idx_: nat
    var read_idx_: nat
    const capacity_: nat
    const data_: array<byte>

    ghost predicate Valid()
      reads this
    {
      && data_.Length == capacity_ + 1 <= MAX_VECTOR_SIZE
      && write_idx_ < data_.Length
      && read_idx_ < data_.Length
    }

    ghost function View(): (r: Ring)
      requires Valid()
      reads this, data_
      ensures r.Valid() && r.End() == write_idx_
    {
      Ring(capacity_, read_idx_, Circular(data_[..], read_idx_, AvailableForReadAt(write_idx_, read_idx_)))
    }

    constructor (capacity: nat)
      requires capacity + 1 <= MAX_VECTOR_SIZE
      ensures Valid() && fresh(data_) && View() == Ring(capacity, 0, [])
    {
      capacity_ := capacity;
      write_idx_ := 0;
      read_idx_ := 0;
      data_ := new byte[capacity + 1](_ => 0);
    }

    // ----- index arithmetic -----

    function AvailableForReadAt(writeIdx: nat, readIdx: nat): (n: nat)
      requires writeIdx < data_.Length && readIdx < data_.Length
      ensures n < data_.Length
      ensures Wrap(readIdx + n, data_.Length) == writeIdx
    {
      ReadableAt(data_.Length, writeIdx, readIdx)
    }

    function AvailableForWriteAt(writeIdx: nat, readIdx: nat): (n: nat)
      requires writeIdx < data_.Length && readIdx < data_.Length <= MAX_VECTOR_SIZE
      ensures n + AvailableForReadAt(writeIdx, readIdx) == data_.Length - 1
    {
      WritableAt(data_.Length, writeIdx, readIdx)
    }

    function NextIndex(idx: nat): nat
      requires idx < data_.Length
    {
      if idx + 1 >= data_.Length then idx + 1 - data_.Length else idx + 1
    }

    // ----- queries -----

    predicate Empty()
      requires Valid()
      reads this, data_
      ensures Empty() <==> View().bytes == []
    {
      write_idx_ == read_idx_
    }

    predicate Full()
      requires Valid()
      reads this, data_
      ensures Full() <==> View().Free() == 0
    {
      AvailableForWriteAt(write_idx_, read_idx_) == 0
    }

    function Front(): (b: byte)
      requires Valid()
      reads this, data_
      ensures View().bytes != [] ==> b == View().bytes[0]
    {
      data_[read_idx_]
    }

    function AvailableForRead(): (n: nat)
      requires Valid()
      reads this, data_
      ensures n == |View().bytes|
    {
      AvailableForReadAt(write_idx_, read_idx_)
    }

    function AvailableForWrite(): (n: nat)
      requires Valid()
      reads this, data_
      ensures n == View().Free()
    {
      AvailableForWriteAt(write_idx_, read_idx_)
    }

    /** Offset and length of the piece that may be read without copying. */
    function FirstReadArray(): (piece: (nat, nat))
      requires Valid()
      reads this, data_
      ensures piece.1 == View().FirstReadLength()
      ensures piece.0 + piece.1 <= data_.Length && data_[piece.0..piece.0 + piece.1] == View().bytes[..piece.1]
    {
      (read_idx_, ReadPieceAt(data_.Length, write_idx_, read_idx_))
    }

    /** Offset and length of the piece that may be filled without copying. */
    function FirstWriteArray(): (piece: (nat, nat))
      requires Valid()
      reads this, data_
      ensures piece == (View().End(), View().FirstWriteLength())
      ensures piece.0 + piece.1 <= data_.Length
    {
      (write_idx_, WritePieceAt(data_.Length, write_idx_, read_idx_))
    }

    // ----- consumer -----

    method Pop()
      requires Valid() && !Empty()
      modifies this`read_idx_
      ensures Valid() && View() == old(View()).Drop(1)
    {
      CircularDrop(data_[..], read_idx_, AvailableForRead(), 1);
      read_idx_ := NextIndex(read_idx_);
    }

    method Read(buffer: array<byte>, maxSize: nat) returns (n: nat)
      requires Valid() && buffer != data_ && maxSize <= buffer.Length
      modifies this`read_idx_, buffer
      ensures Valid()
      ensures n == Min(maxSize, |old(View()).bytes|)
      ensures buffer[..n] == old(View()).bytes[..n]
      ensures buffer[n..] == old(buffer[n..])
      ensures View() == old(View()).Drop(n)
    {
      var avail := AvailableForReadAt(write_idx_, read_idx_);
      if avail == 0 {
        return 0;
      }
      n := Min(maxSize, avail);
      var newRi := Fetch(buffer, n);
      CircularDrop(data_[..], read_idx_, avail, n);
      read_idx_ := newRi;
    }

    /** The copying of Read: the slots from the read index on, in one or two pieces, and the read
        index that goes with them. */
    method Fetch(buffer: array<byte>, n: nat) returns (newRi: nat)
      requires Valid() && buffer != data_ && n <= buffer.Length && n <= AvailableForReadAt(write_idx_, read_idx_)
      modifies buffer
      ensures buffer[..n] == Circular(data_[..], read_idx_, n) && buffer[n..] == old(buffer[n..])
      ensures newRi == Wrap(read_idx_ + n, data_.Length)
    {
      newRi := read_idx_ + n;
      if newRi > data_.Length {
        var count0 := data_.Length - read_idx_;
        var count1 := n - count0;
        CopyOut(read_idx_, count0, buffer, 0);
        CopyOut(0, count1, buffer, count0);
        newRi := newRi - data_.Length;
      } else {
        CopyOut(read_idx_, n, buffer, 0);
        if newRi == data_.Length {
          newRi := 0;
        }
      }
    }

    method Discard(maxSize: nat) returns (n: nat)
      requires Valid()
      modifies this`read_idx_
      ensures Valid()
      ensures n == Min(maxSize, |old(View()).bytes|)
      ensures View() == old(View()).Drop(n)
    {
      var avail := AvailableForReadAt(write_idx_, read_idx_);
      if avail == 0 {
        return 0;
      }
      n := Min(maxSize, avail);
      CircularDrop(data_[..], read_idx_, avail, n);
      var newRi := read_idx_ + n;
      if newRi > data_.Length {
        newRi := newRi - data_.Length;
      } else if newRi == data_.Length {
        newRi := 0;
      }
      read_idx_ := newRi;
    }

    method CommitFirstReadArray(n: nat)
      requires Valid() && n <= FirstReadArray().1
      modifies this`read_idx_
      ensures Valid() && View() == old(View()).Drop(n)
    {
      CircularDrop(data_[..], read_idx_, AvailableForRead(), n);
      var ri := read_idx_ + n;
      if ri == data_.Length {
        ri := 0;
      }
      read_idx_ := ri;
    }

    /** Where the loop of PopUntil, which walks an index of its own over the readable slots,
        stands after `k` bytes. */
    ghost predicate Popped(ri: nat, k: nat)
      requires Valid()
      reads this, data_
    {
      k <= |View().bytes| && ri == Wrap(read_idx_ + k, data_.Length) < data_.Length
    }

    /** That is at the slot of byte `k`, or at the write index if all bytes have been popped. */
    lemma PoppingIndex(ri: nat, k: nat)
      requires Valid() && Popped(ri, k)
      ensures ri < data_.Length && k <= |View().bytes|
      ensures AvailableForReadAt(write_idx_, ri) == |View().bytes| - k
      ensures k < |View().bytes| ==> data_[ri] == View().bytes[k] && Popped(NextIndex(ri), k + 1)
    {
    }

    lemma NothingPopped()
      requires Valid()
      ensures Popped(read_idx_, 0)
    {
    }

    /** The end of PopUntil. */
    method StoreReadIndex(ri: nat, ghost k: nat)
      requires Valid() && Popped(ri, k)
      modifies this`read_idx_
      ensures Valid() && View() == old(View()).Drop(k)
    {
      CircularDrop(data_[..], read_idx_, AvailableForRead(), k);
      read_idx_ := ri;
    }

    // ----- producer -----

    method Write(data: seq<byte>) returns (n: nat)
      requires Valid()
      modifies this`write_idx_, data_
      ensures Valid()
      ensures n == Min(|data|, old(View()).Free())
      ensures View() == old(View()).Append(data[..n])
    {
      var avail := AvailableForWriteAt(write_idx_, read_idx_);
      if avail == 0 {
        assert data[..0] == [];
        return 0;
      }
      n := Min(|data|, avail);
      ghost var before := data_[..];
      var newWi := Store(data[..n]);
      CircularAppend(before, data_[..], read_idx_, AvailableForRead(), data[..n]);
      write_idx_ := newWi;
    }

    /** The copying of Write: the slots behind the write index, in one or two pieces, and the
        write index that goes with them. */
    method Store(data: seq<byte>) returns (newWi: nat)
      requires Valid() && |data| <= data_.Length
      modifies data_
      ensures Written(old(data_[..]), data_[..], write_idx_, data)
      ensures newWi == Wrap(write_idx_ + |data|, data_.Length)
    {
      newWi := write_idx_ + |data|;
      if newWi > data_.Length {
        var count0 := data_.Length - write_idx_;
        CopyIn(data[..count0], write_idx_);
        CopyIn(data[count0..], 0);
        newWi := newWi - data_.Length;
      } else {
        CopyIn(data, write_idx_);
        if newWi == data_.Length {
          newWi := 0;
        }
      }
    }

    /** The transport's share of a receive: it fills the start of a piece handed out by
        FirstWriteArray. The bytes in the buffer are not affected. */
    method Fill(chunk: seq<byte>)
      requires Valid() && |chunk| <= FirstWriteArray().1
      modifies data_
      ensures Valid() && View() == old(View())
      ensures data_[write_idx_..write_idx_ + |chunk|] == chunk
    {
      CopyIn(chunk, write_idx_);
    }

    method CommitFirstWriteArray(n: nat)
      requires Valid() && n <= FirstWriteArray().1
      modifies this`write_idx_
      ensures Valid()
      ensures View() == old(View()).Append(data_[old(write_idx_)..old(write_idx_) + n])
    {
      CircularAppend(data_[..], data_[..], read_idx_, AvailableForRead(), data_[write_idx_..write_idx_ + n]);
      var wi := write_idx_ + n;
      if wi >= data_.Length {
        wi := wi - data_.Length;
      }
      write_idx_ := wi;
    }

    // ----- std::copy -----

    method CopyIn(source: seq<byte>, at: nat)
      requires at + |source| <= data_.Length
      modifies data_
      ensures forall k :: at <= k < at + |source| ==> data_[k] == source[k - at]
      ensures forall k :: 0 <= k < at || at + |source| <= k < data_.Length ==> data_[k] == old(data_[k])
    {
      for i := 0 to |source|
        invariant forall k :: at <= k < at + i ==> data_[k] == source[k - at]
        invariant forall k :: 0 <= k < at || at + i <= k < data_.Length ==> data_[k] == old(data_[k])
      {
        data_[at + i] := source[i];
      }
    }

    method CopyOut(from: nat, count: nat, target: array<byte>, at: nat)
      requires target != data_ && from + count <= data_.Length && at + count <= target.Length
      modifies target
      ensures forall k :: at <= k < at + count ==> target[k] == data_[from + k - at]
      ensures forall k :: 0 <= k < at || at + count <= k < target.Length ==> target[k] == old(target[k])
    {
      for i := 0 to count
        invariant forall k :: at <= k < at + i ==> target[k] == data_[from + k - at]
        invariant forall k :: 0 <= k < at || at + i <= k < target.Length ==> target[k] == old(target[k])
      {
        target[at + i] := data_[from + i];
      }
    }
  }
}
