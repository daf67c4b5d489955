/** The message size field: a base-128 number, most significant group first, in
    one to five bytes; bit 7 of a byte says that another byte follows.

    Bit operations are written as arithmetic: `x >> 7` is `x / 128`,
    `x & 0x7F` is `x % 128`, setting bit 7 of a group is adding 128, and `tmp |= g`
    is `tmp + g` because the low seven bits of `tmp` are zero at that point. */
module SizeField {
  import opened Common

  const MAX_FIELD_LENGTH := 5

  /** 2^35: the first size that five groups of seven bits cannot hold. */
  const SIZE_LIMIT := 0x8_0000_0000

  /** `size >> 7 * groups` */
  function ShiftGroups(size: nat, groups: nat): nat {
    if groups == 0 then size else ShiftGroups(size / 128, groups - 1)
  }

  function FieldLength(size: nat): nat {
    1 + (if size >= 0x80 then 1 else 0) + (if size >= 0x4000 then 1 else 0)
    + (if size >= 0x20_0000 then 1 else 0) + (if size >= 0x1000_0000 then 1 else 0)
  }

  /** The last `groups` bytes of the encoding of `size`. */
  function EncodeGroups(size: nat, groups: nat): (bytes: seq<byte>)
    ensures |bytes| == groups
  {
    if groups == 0 then []
    else [ShiftGroups(size, groups - 1) % 128 + (if groups > 1 then 128 else 0)] + EncodeGroups(size, groups - 1)
  }

  function Encode(size: nat): seq<byte> {
    EncodeGroups(size, FieldLength(size))
  }

  /** The value of a field whose earlier groups amount to `high`; None if no byte ends the field. */
  function DecodeFrom(high: nat, bytes: seq<byte>): Option<nat>
    decreases bytes
  {
    if bytes == [] then None
    else
      var value := high * 128 + bytes[0] % 128;
      if bytes[0] < 128 then Some(value) else DecodeFrom(value, bytes[1..])
  }

  function Decode(bytes: seq<byte>): Option<nat> {
    DecodeFrom(0, bytes)
  }

  /** What the first bytes of a stream say about the size field it starts with. */
  datatype Header = Incomplete | Malformed | Field(size: nat, length: nat)

  /** The position of the first byte with bit 7 clear, or the length if there is none. */
  function EndByte(bytes: seq<byte>): (i: nat)
    ensures i <= |bytes|
    ensures i < |bytes| ==> bytes[i] < 128
    ensures forall k :: 0 <= k < i ==> bytes[k] >= 128
  {
    if bytes == [] || bytes[0] < 128 then 0 else 1 + EndByte(bytes[1..])
  }

  function ScanHeader(bytes: seq<byte>): (h: Header)
    ensures h.Field? ==> 1 <= h.length <= |bytes| && h.length <= MAX_FIELD_LENGTH
    ensures h.Malformed? ==> |bytes| >= MAX_FIELD_LENGTH
    ensures h.Field? ==> h.length == EndByte(bytes) + 1
    ensures h.Incomplete? ==> EndByte(bytes) == |bytes| < MAX_FIELD_LENGTH
    ensures h.Malformed? ==> EndByte(bytes) >= MAX_FIELD_LENGTH
  {
    var i := EndByte(bytes);
    if i < MAX_FIELD_LENGTH && i < |bytes| then
      DecodeEnds(0, bytes, i);
      Field(Decode(bytes[..i + 1]).value, i + 1)
    else if |bytes| >= MAX_FIELD_LENGTH then Malformed
    else Incomplete
  }

  // ----- the two loops of the source -----

  lemma {:induction false} EncodeAt(size: nat, groups: nat, k: nat)
    requires k < groups
    ensures EncodeGroups(size, groups)[k] ==
            ShiftGroups(size, groups - 1 - k) % 128 + (if k < groups - 1 then 128 else 0)
  {
    if k > 0 {
      EncodeAt(size, groups - 1, k - 1);
    }
  }

  method SerializeMsgSizeField(msgSize: nat, buffer: array<byte>) returns (length: nat)
    requires buffer.Length == MAX_FIELD_LENGTH
    modifies buffer
    ensures length == |Encode(msgSize)| <= MAX_FIELD_LENGTH
    ensures buffer[..length] == Encode(msgSize)
    ensures forall k :: length <= k < buffer.Length ==> buffer[k] == old(buffer[k])
  {
    length := FieldLength(msgSize);
    ghost var code := Encode(msgSize);
    var at := 0;
    var i := length;
    while i > 0
      invariant 0 <= i <= length <= MAX_FIELD_LENGTH
      invariant at == length - i
      invariant forall k :: 0 <= k < at ==> buffer[k] == code[k]
      invariant forall k :: length <= k < buffer.Length ==> buffer[k] == old(buffer[k])
    {
      EncodeAt(msgSize, length, at);
      var group := ShiftGroups(msgSize, i - 1) % 128;
      buffer[at] := group + (if i > 1 then 128 else 0);
      at := at + 1;
      i := i - 1;
    }
  }

  method DeserializeMsgSizeField(buffer: array<byte>, size: nat) returns (ok: bool, msgSize: nat)
    requires buffer.Length == MAX_FIELD_LENGTH
    requires size <= buffer.Length
    ensures ok <==> Decode(buffer[..size]).Some?
    ensures ok ==> Decode(buffer[..size]) == Some(msgSize)
  {
    var tmp: nat := 0;
    var shifted: nat := 0;  // tmp after its shift by seven bits
    for i := 0 to size
      invariant shifted == tmp * 128
      invariant Decode(buffer[..size]) == DecodeFrom(tmp, buffer[i..size])
    {
      var b := buffer[i];
      tmp := shifted + b % 128;
      assert buffer[i..size][1..] == buffer[i + 1..size];
      if b < 128 {
        return true, tmp;
      }
      shifted := tmp * 128;
    }
    return false, 0;
  }

  // ----- what decoding depends on -----

  /** Decoding succeeds exactly when some byte ends the field. */
  lemma {:induction false} DecodeSome(high: nat, bytes: seq<byte>)
    ensures DecodeFrom(high, bytes).Some? <==> EndByte(bytes) < |bytes|
    decreases bytes
  {
    if bytes != [] && bytes[0] >= 128 {
      DecodeSome(high * 128 + bytes[0] % 128, bytes[1..]);
    }
  }

  /** Bytes after the end byte do not matter. */
  lemma {:induction false} DecodeEnds(high: nat, bytes: seq<byte>, i: nat)
    requires i < |bytes| && i == EndByte(bytes)
    ensures DecodeFrom(high, bytes).Some?
    ensures DecodeFrom(high, bytes[..i + 1]) == DecodeFrom(high, bytes)
    decreases bytes
  {
    if bytes[0] >= 128 {
      assert bytes[..i + 1][1..] == bytes[1..][..i];
      DecodeEnds(high * 128 + bytes[0] % 128, bytes[1..], i - 1);
    }
  }

  /** The position of the end byte is settled as soon as it has arrived. */
  lemma {:induction false} EndByteExtends(a: seq<byte>, b: seq<byte>)
    ensures EndByte(a) < |a| ==> EndByte(a + b) == EndByte(a)
    ensures EndByte(a) == |a| ==> EndByte(a + b) == |a| + EndByte(b)
  {
    if a == [] {
      assert a + b == b;
    } else if a[0] >= 128 {
      assert (a + b)[1..] == a[1..] + b;
      EndByteExtends(a[1..], b);
    }
  }

  /** A header once recognised, or rejected, stays so however much more arrives. */
  lemma ScanExtends(a: seq<byte>, b: seq<byte>)
    ensures ScanHeader(a) != Incomplete ==> ScanHeader(a + b) == ScanHeader(a)
    ensures ScanHeader(a).Field? ==>
              ScanHeader(a).length <= |a| && ScanHeader(a[..ScanHeader(a).length]) == ScanHeader(a)
  {
    EndByteExtends(a, b);
    var i := EndByte(a);
    if i < |a| {
      assert (a + b)[..i + 1] == a[..i + 1];
      var h := a[..i + 1];
      EndByteExtends(h, a[i + 1..]);
      assert h + a[i + 1..] == a;
      assert h[..i + 1] == h;
    }
  }

  /** The number that groups of seven bits stand for, most significant group first */
  ghost function GroupsValue(bytes: seq<byte>): nat {
    if bytes == [] then 0
    else GroupsValue(bytes[..|bytes| - 1]) * 128 + bytes[|bytes| - 1] % 128
  }

  lemma {:induction false} GroupsFront(front: seq<byte>, bytes: seq<byte>, i: nat)
    requires i < |bytes| && i == EndByte(bytes)
    ensures DecodeFrom(GroupsValue(front), bytes) == Some(GroupsValue(front + bytes[..i + 1]))
    decreases bytes
  {
    var b := bytes[0];
    assert (front + [b])[..|front|] == front;
    if b < 128 {
      assert bytes[..1] == [b];
    } else {
      GroupsFront(front + [b], bytes[1..], i - 1);
      assert front + [b] + bytes[1..][..i] == front + bytes[..i + 1];
    }
  }

  /** A size field ends with the first byte below 128, which must be among the first five; its value
      is that of the low seven bits of its bytes. */
  lemma HeaderExactly(bytes: seq<byte>)
    ensures ScanHeader(bytes).Malformed? <==> |bytes| >= 5 && forall k :: 0 <= k < 5 ==> bytes[k] >= 128
    ensures ScanHeader(bytes).Incomplete? <==> |bytes| < 5 && forall k :: 0 <= k < |bytes| ==> bytes[k] >= 128
    ensures ScanHeader(bytes).Field? ==>
              var Field(size, length) := ScanHeader(bytes);
              && 1 <= length <= |bytes| && bytes[length - 1] < 128
              && (forall k :: 0 <= k < length - 1 ==> bytes[k] >= 128)
              && size == GroupsValue(bytes[..length])
  {
    var i := EndByte(bytes);
    if i < |bytes| {
      GroupsFront([], bytes, i);
      assert [] + bytes[..i + 1] == bytes[..i + 1];
      DecodeEnds(0, bytes, i);
    }
  }

  // ----- encoding and decoding are inverse -----

  lemma {:induction false} ShiftStep(size: nat, groups: nat)
    ensures ShiftGroups(size, groups + 1) == ShiftGroups(size, groups) / 128
  {
    if groups > 0 {
      ShiftStep(size / 128, groups - 1);
    }
  }

  /** Decoding the last groups of a size, with the remaining high part already accumulated. */
  lemma {:induction false} DecodeGroups(size: nat, groups: nat, tail: seq<byte>)
    requires groups > 0
    ensures EndByte(EncodeGroups(size, groups) + tail) == groups - 1
    ensures DecodeFrom(ShiftGroups(size, groups), EncodeGroups(size, groups) + tail) == Some(size)
  {
    var low := ShiftGroups(size, groups - 1);
    var bytes := EncodeGroups(size, groups) + tail;
    ShiftStep(size, groups - 1);
    GroupByte(low, groups > 1);
    assert bytes[0] == low % 128 + (if groups > 1 then 128 else 0);
    if groups > 1 {
      DecodeGroups(size, groups - 1, tail);
      assert bytes[1..] == EncodeGroups(size, groups - 1) + tail;
    }
  }

  lemma GroupByte(low: nat, more: bool)
    ensures var b := low % 128 + (if more then 128 else 0);
            b % 128 == low % 128 && (b < 128 <==> !more) && low / 128 * 128 + b % 128 == low
  {
  }

  /** The length chosen holds every size below 2^35. */
  lemma FieldLengthFits(size: nat)
    ensures 1 <= FieldLength(size) <= MAX_FIELD_LENGTH
    ensures size < SIZE_LIMIT ==> ShiftGroups(size, FieldLength(size)) == 0
  {
    var s1 := size / 128;
    var s2 := s1 / 128;
    var s3 := s2 / 128;
    var s4 := s3 / 128;
    var s5 := s4 / 128;
    assert ShiftGroups(size, 1) == s1;
    assert ShiftGroups(size, 2) == ShiftGroups(s1, 1) == s2;
    assert ShiftGroups(size, 3) == ShiftGroups(s1, 2) == ShiftGroups(s2, 1) == s3;
    assert ShiftGroups(size, 4) == ShiftGroups(s1, 3) == ShiftGroups(s2, 2) == ShiftGroups(s3, 1) == s4;
    assert ShiftGroups(size, 5) == ShiftGroups(s1, 4) == ShiftGroups(s2, 3) == ShiftGroups(s3, 2);
    assert ShiftGroups(s3, 2) == ShiftGroups(s4, 1) == s5;
  }

  /** No shorter field holds the size. */
  lemma FieldLengthIsLeast(size: nat, k: nat)
    requires 1 <= k < FieldLength(size)
    ensures ShiftGroups(size, k) != 0
  {
    var s1 := size / 128;
    var s2 := s1 / 128;
    var s3 := s2 / 128;
    assert ShiftGroups(size, 1) == s1;
    assert ShiftGroups(size, 2) == ShiftGroups(s1, 1) == s2;
    assert ShiftGroups(size, 3) == ShiftGroups(s1, 2) == ShiftGroups(s2, 1) == s3;
    assert ShiftGroups(size, 4) == ShiftGroups(s1, 3) == ShiftGroups(s2, 2) == ShiftGroups(s3, 1) == s3 / 128;
    assert k == 1 ==> size >= 0x80;
    assert k == 2 ==> size >= 0x4000;
    assert k == 3 ==> size >= 0x20_0000;
    assert k == 4 ==> size >= 0x1000_0000;
  }

  /** Groups above the encoded ones are lost. */
  lemma {:induction false} EncodeModulo(size: nat, groups: nat, unit: nat, q: nat)
    requires groups <= 5 && unit == [1, 0x80, 0x4000, 0x20_0000, 0x1000_0000, SIZE_LIMIT][groups]
    ensures EncodeGroups(unit * q + size, groups) == EncodeGroups(size, groups)
  {
    if groups > 0 {
      var below := unit / 128;
      assert unit * q == below * (128 * q) by { assert unit == below * 128; }
      ShiftModulo(size, groups - 1, below, 128 * q);
      EncodeModulo(size, groups - 1, below, 128 * q);
      assert (128 * q + ShiftGroups(size, groups - 1)) % 128 == ShiftGroups(size, groups - 1) % 128;
    }
  }

  lemma {:induction false} ShiftModulo(size: nat, groups: nat, unit: nat, q: nat)
    requires groups <= 5 && unit == [1, 0x80, 0x4000, 0x20_0000, 0x1000_0000, SIZE_LIMIT][groups]
    ensures ShiftGroups(unit * q + size, groups) == q + ShiftGroups(size, groups)
  {
    if groups > 0 {
      var below := unit / 128;
      var low := below * q;
      assert unit * q == 128 * low by { assert unit == below * 128; }
      assert (128 * low + size) / 128 == low + size / 128;
      ShiftModulo(size / 128, groups - 1, below, q);
    }
  }

  /** Decoding an encoded size followed by anything gives the size modulo 2^35: the round
      trip holds exactly for the sizes below 2^35. */
  lemma RoundTrip(size: nat, tail: seq<byte>)
    ensures Decode(Encode(size) + tail) == Some(size % SIZE_LIMIT)
    ensures Decode(Encode(size) + tail) == Some(size) <==> size < SIZE_LIMIT
    ensures ScanHeader(Encode(size) + tail) == Field(size % SIZE_LIMIT, |Encode(size)|)
  {
    hide EncodeGroups, DecodeFrom, ShiftGroups, EndByte, FieldLength;
    var n := FieldLength(size);
    FieldLengthFits(size);
    DivideByLimit(size);
    if size < SIZE_LIMIT {
      DecodeGroups(size, n, tail);
    } else {
      LargeSize(size, tail);
    }
    DecodeEnds(0, Encode(size) + tail, n - 1);
  }

  lemma DivideByLimit(size: nat)
    ensures size == SIZE_LIMIT * (size / SIZE_LIMIT) + size % SIZE_LIMIT
    ensures size < SIZE_LIMIT <==> size % SIZE_LIMIT == size
  {
  }

  /** A size from 2^35 on is encoded like its remainder, in five bytes. */
  lemma LargeSize(size: nat, tail: seq<byte>)
    requires size >= SIZE_LIMIT
    ensures FieldLength(size) == MAX_FIELD_LENGTH && EndByte(Encode(size) + tail) == MAX_FIELD_LENGTH - 1
    ensures DecodeFrom(0, Encode(size) + tail) == Some(size % SIZE_LIMIT)
  {
    hide EncodeGroups, DecodeFrom, ShiftGroups, EndByte;
    var kept := size % SIZE_LIMIT;
    DivideByLimit(size);
    EncodeModulo(kept, MAX_FIELD_LENGTH, SIZE_LIMIT, size / SIZE_LIMIT);
    DecodeGroups(kept, MAX_FIELD_LENGTH, tail);
    ShiftBelowLimit(kept);
  }

  lemma ShiftBelowLimit(size: nat)
    requires size < SIZE_LIMIT
    ensures ShiftGroups(size, MAX_FIELD_LENGTH) == 0
  {
    assert ShiftGroups(size, 5) == ShiftGroups(size / 128, 4) == ShiftGroups(size / 128 / 128, 3);
    var s3 := size / 128 / 128 / 128;
    assert ShiftGroups(size / 128 / 128, 3) == ShiftGroups(s3, 2) == ShiftGroups(s3 / 128, 1) == s3 / 128 / 128;
  }

  /** No strict prefix of an encoding decodes, so feeding the decoder one byte at a time
      stops at the same byte, with the same value, as decoding in one go. */
  lemma StrictPrefixIncomplete(size: nat, k: nat)
    requires k < |Encode(size)|
    ensures Decode(Encode(size)[..k]) == None
    ensures ScanHeader(Encode(size)[..k]) == Incomplete
  {
    hide EncodeGroups, DecodeFrom;
    var n := FieldLength(size);
    FieldLengthFits(size);
    DecodeGroups(size, n, []);
    var code := Encode(size);
    assert code + [] == code;
    PrefixCompletes(code[..k], code);
    EndByteExtends(code[..k], code[k..]);
    DecodeSome(0, code[..k]);
  }

  /** The shortcut that compares the free space with size + 5 never changes the answer. */
  lemma FastPathAgrees(free: nat, size: nat)
    ensures (free >= size + 5 || free >= size + FieldLength(size)) <==> free >= size + |Encode(size)|
  {
  }
}
