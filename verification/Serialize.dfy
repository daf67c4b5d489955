/** Serialization of the fields that branches exchange: each field is appended to a byte vector,
    and a list of fields is read back by asking for the same types in the same order. */
module Serialize {
  import opened Common

  /** A value of one of the types that can be serialized. Durations and timestamps are in
      nanoseconds, a string is its characters as bytes. */
  datatype Field =
    | Boolean(on: bool)
    | Short(n: int)
    | Integer(n: int)
    | Size(n: int)
    | Duration(n: int)
    | Time(n: int)
    | Text(bytes: seq<byte>)
    | Uuid(bytes: seq<byte>)

  datatype Kind = KBoolean | KShort | KInteger | KSize | KDuration | KTime | KText | KUuid

  function KindOf(f: Field): Kind {
    match f
    case Boolean(_) => KBoolean
    case Short(_) => KShort
    case Integer(_) => KInteger
    case Size(_) => KSize
    case Duration(_) => KDuration
    case Time(_) => KTime
    case Text(_) => KText
    case Uuid(_) => KUuid
  }

  // ----- big-endian integers -----

  function Power(k: nat): (p: nat)
    ensures p > 0
  {
    if k == 0 then 1 else 256 * Power(k - 1)
  }

  function BigEndian(n: nat, k: nat): (bytes: seq<byte>)
    ensures |bytes| == k
  {
    if k == 0 then [] else BigEndian(n / 256, k - 1) + [n % 256]
  }

  function Value(bytes: seq<byte>): nat {
    if bytes == [] then 0 else 256 * Value(bytes[..|bytes| - 1]) + bytes[|bytes| - 1]
  }

  /** Two's complement */
  function Signed(n: nat, k: nat): int {
    if 2 * n >= Power(k) then n - Power(k) else n
  }

  /** The bytes an integer type takes up, and whether it has a sign; a size is sent as 32 bits. */
  function Width(k: Kind): nat {
    match k
    case KShort => 2
    case KInteger => 4
    case KSize => 4
    case KDuration => 8
    case KTime => 8
    case KBoolean => 1
    case KText => 1
    case KUuid => 16
  }

  predicate HasSign(k: Kind) {
    k == KInteger || k == KDuration || k == KTime
  }

  function Number(k: Kind, n: int): Field
    requires k in {KShort, KInteger, KSize, KDuration, KTime}
  {
    match k
    case KShort => Short(n)
    case KInteger => Integer(n)
    case KSize => Size(n)
    case KDuration => Duration(n)
    case KTime => Time(n)
  }

  // ----- the wire format -----

  function Bytes(f: Field): seq<byte> {
    match f
    case Boolean(on) => [if on then 1 else 0]
    case Text(bytes) => bytes + [0]
    case Uuid(bytes) => bytes
    case _ => BigEndian(f.n % Power(Width(KindOf(f))), Width(KindOf(f)))
  }

  function AllBytes(fields: seq<Field>): seq<byte> {
    if fields == [] then [] else Bytes(fields[0]) + AllBytes(fields[1..])
  }

  /** The position of the first NUL, or the length if there is none */
  function Terminator(s: seq<byte>): (i: nat)
    ensures i <= |s| && (i < |s| ==> s[i] == 0) && forall k :: 0 <= k < i ==> s[k] != 0
  {
    if s == [] || s[0] == 0 then 0 else 1 + Terminator(s[1..])
  }

  datatype Parsed<T> = Parsed(value: T, rest: seq<byte>)

  function Parse(k: Kind, s: seq<byte>): Option<Parsed<Field>> {
    if k == KText then
      var i := Terminator(s);
      if i == |s| then None else Some(Parsed(Text(s[..i]), s[i + 1..]))
    else if |s| < Width(k) then None
    else
      var taken, rest := s[..Width(k)], s[Width(k)..];
      if k == KBoolean then Some(Parsed(Boolean(taken[0] != 0), rest))
      else if k == KUuid then Some(Parsed(Uuid(taken), rest))
      else
        var n := Value(taken);
        Some(Parsed(Number(k, if HasSign(k) then Signed(n, Width(k)) else n), rest))
  }

  function ParseAll(kinds: seq<Kind>, s: seq<byte>): Option<Parsed<seq<Field>>> {
    if kinds == [] then Some(Parsed([], s))
    else
      var first := Parse(kinds[0], s);
      if first.None? then None
      else
        var others := ParseAll(kinds[1..], first.value.rest);
        if others.None? then None
        else Some(Parsed([first.value.value] + others.value.value, others.value.rest))
  }

  function Kinds(fields: seq<Field>): (kinds: seq<Kind>)
    ensures |kinds| == |fields|
  {
    seq(|fields|, i requires 0 <= i < |fields| => KindOf(fields[i]))
  }

  // ----- which fields come back -----

  /** The values of the source's types; a size has 64 bits. */
  predicate Typed(f: Field) {
    match f
    case Boolean(_) => true
    case Short(n) => 0 <= n < 0x1_0000
    case Integer(n) => -0x8000_0000 <= n < 0x8000_0000
    case Size(n) => 0 <= n < 0x1_0000_0000_0000_0000
    case Duration(n) => -0x8000_0000_0000_0000 <= n < 0x8000_0000_0000_0000
    case Time(n) => -0x8000_0000_0000_0000 <= n < 0x8000_0000_0000_0000
    case Text(_) => true
    case Uuid(bytes) => |bytes| == 16
  }

  /** A size of 2^32 or more is truncated; a string ends at its first NUL. */
  predicate Faithful(f: Field) {
    && (f.Size? ==> f.n < 0x1_0000_0000)
    && (f.Text? ==> 0 !in f.bytes)
  }

  lemma PowerValues()
    ensures Power(1) == 0x100 && Power(2) == 0x1_0000
    ensures Power(4) == 0x1_0000_0000 && Power(8) == 0x1_0000_0000_0000_0000
  {
    assert Power(3) == 0x100_0000;
    assert Power(5) == 0x100_0000_0000;
    assert Power(6) == 0x1_0000_0000_0000;
    assert Power(7) == 0x100_0000_0000_0000;
  }

  lemma {:induction false} ValueOfBigEndian(n: nat, k: nat)
    requires n < Power(k)
    ensures Value(BigEndian(n, k)) == n
  {
    if k > 0 {
      ValueOfBigEndian(n / 256, k - 1);
      assert BigEndian(n, k)[..k - 1] == BigEndian(n / 256, k - 1);
    }
  }

  /** `n >> 8 * bytes` */
  function ShiftBytes(n: nat, bytes: nat): nat {
    if bytes == 0 then n else ShiftBytes(n / 256, bytes - 1)
  }

  /** The most significant byte comes first. */
  lemma {:induction false} BigEndianAt(n: nat, k: nat, i: nat)
    requires i < k
    ensures BigEndian(n, k)[i] == ShiftBytes(n, k - 1 - i) % 256
  {
    if i < k - 1 {
      BigEndianAt(n / 256, k - 1, i);
    }
  }

  lemma {:induction false} BigEndianOfValue(s: seq<byte>)
    ensures Value(s) < Power(|s|) && BigEndian(Value(s), |s|) == s
  {
    if s != [] {
      var init, last := s[..|s| - 1], s[|s| - 1];
      BigEndianOfValue(init);
      assert (256 * Value(init) + last) / 256 == Value(init);
      assert s == init + [last];
    }
  }

  lemma SignedModulo(n: int, k: nat)
    requires 0 <= Power(k) + 2 * n && 2 * n < Power(k)
    ensures Signed(n % Power(k), k) == n
  {
    var p := Power(k);
    if n < 0 {
      ModuloShift(n, p);
    } else {
      ModuloSmall(n, p);
    }
  }

  lemma ModuloSmall(n: nat, p: nat)
    requires n < p
    ensures n % p == n
  {
  }

  lemma ModuloShift(n: int, p: nat)
    requires n < 0 <= n + p
    ensures n % p == n + p
  {
    assert n == -1 * p + (n + p);
  }

  lemma TerminatorOfText(bytes: seq<byte>, rest: seq<byte>)
    ensures Terminator(bytes + [0] + rest) <= |bytes|
    ensures 0 !in bytes <==> Terminator(bytes + [0] + rest) == |bytes|
  {
    var s := bytes + [0] + rest;
    var i := Terminator(s);
    assert s[|bytes|] == 0;
    if i < |bytes| {
      assert s[i] == bytes[i];
    } else {
      assert forall k :: 0 <= k < |bytes| ==> s[k] == bytes[k];
    }
  }

  lemma TakenApart(a: seq<byte>, b: seq<byte>)
    ensures (a + b)[..|a|] == a && (a + b)[|a|..] == b
  {
  }

  lemma NumberComesBack(f: Field, rest: seq<byte>)
    requires Typed(f) && !f.Boolean? && !f.Text? && !f.Uuid?
    ensures var r := Parse(KindOf(f), Bytes(f) + rest);
            r.Some? && r.value.rest == rest && (r.value.value == f <==> Faithful(f))
  {
    hide Power, Value, BigEndian, Signed;
    var k := Width(KindOf(f));
    var n := f.n % Power(k);
    PowerValues();
    ValueOfBigEndian(n, k);
    TakenApart(Bytes(f), rest);
    if HasSign(KindOf(f)) {
      SignedModulo(f.n, k);
    } else if Faithful(f) {
      ModuloSmall(f.n, Power(k));
    }
  }

  /** What was written comes back as it was exactly if the value is one the format can carry, and
      in any case the next field starts where it should, unless a string was cut short. */
  lemma FieldComesBack(f: Field, rest: seq<byte>)
    requires Typed(f)
    ensures var r := Parse(KindOf(f), Bytes(f) + rest);
            && r.Some? && (r.value.value == f <==> Faithful(f))
            && (r.value.rest == rest || !Faithful(f))
  {
    match f
    case Text(bytes) =>
      TerminatorOfText(bytes, rest);
      var s := bytes + [0] + rest;
      if Faithful(f) {
        assert s[..|bytes|] == bytes && s[|bytes| + 1..] == rest;
      } else {
        assert |s[..Terminator(s)]| < |bytes|;
      }
    case Boolean(_) => TakenApart(Bytes(f), rest);
    case Uuid(_) => TakenApart(Bytes(f), rest);
    case _ => NumberComesBack(f, rest);
  }

  predicate AllFaithful(fields: seq<Field>) {
    forall f :: f in fields ==> Faithful(f)
  }

  /** A number as it is stored in so many bits */
  function Unsigned(n: int, values: nat): int {
    if n < 0 then n + values else n
  }

  /** What each type looks like on the wire. The most significant byte of a number comes first. */
  lemma OnTheWire(f: Field)
    requires Typed(f)
    ensures match f
            case Boolean(on) => Bytes(f) == [if on then 1 else 0]
            case Short(n) => Bytes(f) == BigEndian(n, 2)
            case Integer(n) => 0 <= Unsigned(n, 0x1_0000_0000) && Bytes(f) == BigEndian(Unsigned(n, 0x1_0000_0000), 4)
            case Size(n) => Bytes(f) == BigEndian(n % 0x1_0000_0000, 4)
            case Duration(n) =>
              && 0 <= Unsigned(n, 0x1_0000_0000_0000_0000)
              && Bytes(f) == BigEndian(Unsigned(n, 0x1_0000_0000_0000_0000), 8)
            case Time(n) =>
              && 0 <= Unsigned(n, 0x1_0000_0000_0000_0000)
              && Bytes(f) == BigEndian(Unsigned(n, 0x1_0000_0000_0000_0000), 8)
            case Text(bytes) => Bytes(f) == bytes + [0]
            case Uuid(bytes) => Bytes(f) == bytes && |bytes| == 16
  {
    hide Power, BigEndian;
    PowerValues();
    if f.Short? {
      ModuloSmall(f.n, 0x1_0000);
    } else if f.Integer? {
      UnsignedModulo(f.n, 0x1_0000_0000);
    } else if f.Duration? || f.Time? {
      UnsignedModulo(f.n, 0x1_0000_0000_0000_0000);
    }
  }

  lemma UnsignedModulo(n: int, values: nat)
    requires 0 <= n + values && n < values
    ensures n % values == Unsigned(n, values)
  {
    if n < 0 {
      ModuloShift(n, values);
    } else {
      ModuloSmall(n, values);
    }
  }

  /** Any byte but 0 is read as true. */
  lemma TruthIsNotZero(s: seq<byte>)
    requires s != []
    ensures Parse(KBoolean, s) == Some(Parsed(Boolean(s[0] != 0), s[1..]))
  {
  }

  /** A list of fields, followed by anything, is read back as it was exactly if every field is one
      the format can carry, and then the reader is left exactly at what follows. */
  lemma {:induction false} RoundTrip(fields: seq<Field>, suffix: seq<byte>)
    requires forall f :: f in fields ==> Typed(f)
    ensures var r := ParseAll(Kinds(fields), AllBytes(fields) + suffix);
            && (AllFaithful(fields) <==> r.Some? && r.value.value == fields)
            && (AllFaithful(fields) ==> r.value.rest == suffix)
  {
    hide Parse, Bytes, Faithful, Typed;
    if fields == [] {
      assert AllBytes(fields) + suffix == suffix;
    } else {
      var f, others := fields[0], fields[1..];
      ConcatAssociative(Bytes(f), AllBytes(others), suffix);
      FieldComesBack(f, AllBytes(others) + suffix);
      RoundTrip(others, suffix);
      FirstAndOthers(fields, AllBytes(others) + suffix);
      assert fields == [f] + others;
    }
  }

  lemma FirstAndOthers(fields: seq<Field>, rest: seq<byte>)
    requires fields != []
    requires var r := Parse(KindOf(fields[0]), Bytes(fields[0]) + rest);
             r.Some? && (r.value.rest == rest || r.value.value != fields[0])
    ensures var r, rs := ParseAll(Kinds(fields), Bytes(fields[0]) + rest), ParseAll(Kinds(fields[1..]), rest);
            var same := Parse(KindOf(fields[0]), Bytes(fields[0]) + rest).value.value == fields[0];
            && (r.Some? && r.value.value == fields <==> same && rs.Some? && rs.value.value == fields[1..])
            && (same && rs.Some? ==> r.Some? && r.value.rest == rs.value.rest)
  {
    hide Parse, Bytes;
    var f, others := fields[0], fields[1..];
    assert Kinds(fields)[0] == KindOf(f) && Kinds(fields)[1..] == Kinds(others);
    var first := Parse(KindOf(f), Bytes(f) + rest).value;
    var tail := ParseAll(Kinds(others), first.rest);
    if tail.Some? {
      var all := [first.value] + tail.value.value;
      assert all[0] == first.value && all[1..] == tail.value.value;
      assert fields == [f] + others;
    }
  }

  /** What a reader accepts is a value that would have been written as just these bytes, except
      that any byte but 0 is read as true. */
  lemma AcceptedIsWritten(k: Kind, s: seq<byte>)
    requires Parse(k, s).Some?
    ensures var r := Parse(k, s).value;
            && KindOf(r.value) == k && Typed(r.value) && Faithful(r.value)
            && (s == Bytes(r.value) + r.rest <==> (k == KBoolean ==> s[0] <= 1))
  {
    hide Power, Value, BigEndian, Terminator;
    var r := Parse(k, s).value;
    if k == KText {
      SplitAround(s, Terminator(s));
    } else if k == KBoolean || k == KUuid {
      SplitAt(s, Width(k));
      TakenApart(Bytes(r.value), r.rest);
    } else {
      NumberIsWritten(k, s);
    }
  }

  lemma SplitAt(s: seq<byte>, n: nat)
    requires n <= |s|
    ensures s == s[..n] + s[n..]
  {
  }

  lemma SplitAround(s: seq<byte>, i: nat)
    requires i < |s|
    ensures s == s[..i] + [s[i]] + s[i + 1..]
  {
  }

  lemma NumberIsWritten(k: Kind, s: seq<byte>)
    requires k in {KShort, KInteger, KSize, KDuration, KTime} && |s| >= Width(k)
    ensures var r := Parse(k, s).value;
            && KindOf(r.value) == k && Typed(r.value) && Faithful(r.value)
            && s == Bytes(r.value) + r.rest
  {
    hide Power, Value, BigEndian;
    PowerValues();
    var taken := s[..Width(k)];
    SplitAt(s, Width(k));
    BigEndianOfValue(taken);
    WrittenBack(Parse(k, s).value.value, Value(taken));
  }

  lemma WrittenBack(f: Field, n: nat)
    requires !f.Boolean? && !f.Text? && !f.Uuid? && n < Power(Width(KindOf(f)))
    requires f.n == if HasSign(KindOf(f)) then Signed(n, Width(KindOf(f))) else n
    ensures f.n % Power(Width(KindOf(f))) == n
  {
    hide Power;
    var p := Power(Width(KindOf(f)));
    if f.n < 0 {
      ModuloShift(f.n, p);
    } else {
      ModuloSmall(f.n, p);
    }
  }

  /** A message that was cut short is not accepted. */
  lemma {:induction false} CutShort(fields: seq<Field>, k: nat)
    requires forall f :: f in fields ==> Typed(f) && Faithful(f)
    requires k < |AllBytes(fields)|
    ensures ParseAll(Kinds(fields), AllBytes(fields)[..k]) == None
  {
    hide Parse, Bytes, Faithful, Typed;
    var f, others := fields[0], fields[1..];
    var s := AllBytes(fields)[..k];
    assert Kinds(fields)[1..] == Kinds(others);
    if k < |Bytes(f)| {
      assert s == Bytes(f)[..k];
      FieldCutShort(f, k);
    } else {
      var j := k - |Bytes(f)|;
      assert s == Bytes(f) + AllBytes(others)[..j];
      FieldComesBack(f, AllBytes(others)[..j]);
      CutShort(others, j);
    }
  }

  lemma FieldCutShort(f: Field, k: nat)
    requires Typed(f) && Faithful(f) && k < |Bytes(f)|
    ensures Parse(KindOf(f), Bytes(f)[..k]) == None
  {
    if f.Text? {
      var s := Bytes(f)[..k];
      assert forall i :: 0 <= i < k ==> s[i] == f.bytes[i];
    }
  }

  // ----- the operations -----

  class ByteVector {
    var bytes: seq<byte>

    constructor ()
      ensures bytes == []
    {
      bytes := [];
    }

    method SerializeInteger(val: int, width: nat)
      modifies this
      ensures bytes == old(bytes) + BigEndian(val % Power(width), width)
    {
      bytes := bytes + BigEndian(val % Power(width), width);
    }

    method Serialize(f: Field)
      modifies this
      ensures bytes == old(bytes) + Bytes(f)
    {
      match f
      case Boolean(on) => bytes := bytes + [if on then 1 else 0];
      case Text(chars) => bytes := bytes + (chars + [0]);
      case Uuid(data) => bytes := bytes + data;
      case _ => SerializeInteger(f.n, Width(KindOf(f)));
    }

    /** Fields one after another */
    method SerializeAll(fields: seq<Field>)
      modifies this
      ensures bytes == old(bytes) + AllBytes(fields)
    {
      hide Bytes;
      if fields != [] {
        Serialize(fields[0]);
        SerializeAll(fields[1..]);
      }
    }
  }

  /** A buffer with the iterator that deserialization advances */
  class Reader {
    const buffer: seq<byte>
    var it: nat

    ghost predicate Valid()
      reads this
    {
      it <= |buffer|
    }

    /** What has not been read yet */
    ghost function Rest(): seq<byte>
      requires Valid()
      reads this
    {
      buffer[it..]
    }

    constructor (buffer: seq<byte>)
      ensures Valid() && this.buffer == buffer && Rest() == buffer
    {
      this.buffer, it := buffer, 0;
    }

    method DeserializeInteger(width: nat, sign: bool) returns (val: Option<int>)
      requires Valid()
      modifies this
      ensures Valid() && (val.None? <==> |old(Rest())| < width)
      ensures val.None? ==> it == old(it)
      ensures val.Some? ==>
                var n := Value(old(Rest())[..width]);
                Rest() == old(Rest())[width..] && val.value == if sign then Signed(n, width) else n
    {
      if |buffer| - it < width {
        return None;
      }
      var n := Value(buffer[it..it + width]);
      assert buffer[it..it + width] == Rest()[..width];
      it := it + width;
      val := Some(if sign then Signed(n, width) else n);
    }

    /** The field of the type asked for, or None, with the iterator where it was */
    method Deserialize(k: Kind) returns (val: Option<Field>)
      requires Valid()
      modifies this
      ensures Valid()
      ensures match Parse(k, old(Rest()))
              case None => val == None && it == old(it)
              case Some(parsed) => val == Some(parsed.value) && Rest() == parsed.rest
    {
      hide Signed, Value, Terminator;
      if k == KText {
        val := DeserializeText();
      } else if k == KBoolean {
        if |buffer| - it < 1 {
          return None;
        }
        val := Some(Boolean(buffer[it] != 0));
        it := it + 1;
      } else if k == KUuid {
        if |buffer| - it < 16 {
          return None;
        }
        val := Some(Uuid(buffer[it..it + 16]));
        assert buffer[it..it + 16] == Rest()[..16];
        it := it + 16;
      } else {
        var n := DeserializeInteger(Width(k), HasSign(k));
        val := if n.None? then None else Some(Number(k, n.value));
      }
    }

    method DeserializeText() returns (val: Option<Field>)
      requires Valid()
      modifies this
      ensures Valid()
      ensures match Parse(KText, old(Rest()))
              case None => val == None && it == old(it)
              case Some(parsed) => val == Some(parsed.value) && Rest() == parsed.rest
    {
      hide Terminator;
      var end := FindTerminator();
      assert Rest()[..end - it] == buffer[it..end];
      if end == |buffer| {
        return None;
      }
      val := Some(Text(buffer[it..end]));
      it := end + 1;
    }

    /** std::find for the NUL that ends a string */
    method FindTerminator() returns (end: nat)
      requires Valid()
      ensures it <= end <= |buffer| && end - it == Terminator(Rest())
    {
      end := it;
      while end < |buffer| && buffer[end] != 0
        invariant it <= end <= |buffer|
        invariant Terminator(buffer[it..]) == end - it + Terminator(buffer[end..])
      {
        assert buffer[end..][1..] == buffer[end + 1..];
        end := end + 1;
      }
    }

    /** A list of fields one after another, up to the first that fails */
    method DeserializeAll(kinds: seq<Kind>) returns (vals: Option<seq<Field>>)
      requires Valid()
      modifies this
      ensures Valid()
      ensures match ParseAll(kinds, old(Rest()))
              case None => vals == None
              case Some(parsed) => vals == Some(parsed.value) && Rest() == parsed.rest
    {
      hide Parse;
      if kinds == [] {
        return Some([]);
      }
      var first := Deserialize(kinds[0]);
      if first.None? {
        return None;
      }
      var others := DeserializeAll(kinds[1..]);
      vals := if others.None? then None else Some([first.value] + others.value);
    }
  }
}
