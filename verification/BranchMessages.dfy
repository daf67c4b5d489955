/** The messages by which branches find each other: the advertising message, and the info message
    that begins with the same bytes and goes on with everything else about the branch. */
module BranchMessages {
  import opened Common
  import opened Serialize

  datatype Branch = Branch(
    uuid: seq<byte>,
    port: int,
    name: seq<byte>,
    description: seq<byte>,
    networkName: seq<byte>,
    path: seq<byte>,
    hostname: seq<byte>,
    pid: int,
    startTime: int,
    timeout: int,
    interval: int,
    ghostMode: bool
  )

  datatype Version = Version(major: byte, minor: byte)

  datatype Error = InvalidMagicPrefix | IncompatibleVersion | DeserializeFailed

  datatype Received = Received(branch: Branch) | Rejected(error: Error)

  const ADVERTISING_SIZE := 25
  const HEADER_SIZE := ADVERTISING_SIZE + 4

  /** "YOGI", with the NUL at its end */
  const MAGIC: seq<byte> := [89, 79, 71, 73, 0]

  const BODY: seq<Kind> := [KText, KText, KText, KText, KText, KInteger, KTime, KDuration, KDuration, KBoolean]

  function Body(b: Branch): seq<Field> {
    [Text(b.name), Text(b.description), Text(b.networkName), Text(b.path), Text(b.hostname),
     Integer(b.pid), Time(b.startTime), Duration(b.timeout), Duration(b.interval), Boolean(b.ghostMode)]
  }

  function Start(b: Branch): seq<Field> {
    [Uuid(b.uuid), Short(b.port)]
  }

  // ----- sending -----

  function AdvertisingMessage(b: Branch, v: Version): seq<byte> {
    MAGIC + [v.major, v.minor] + AllBytes(Start(b))
  }

  function InfoMessage(b: Branch, v: Version): seq<byte> {
    AdvertisingMessage(b, v) + Bytes(Size(|AllBytes(Body(b))|)) + AllBytes(Body(b))
  }

  /** PopulateMessages */
  method PopulateMessages(b: Branch, v: Version) returns (adv: seq<byte>, info: seq<byte>)
    ensures adv == AdvertisingMessage(b, v) && info == InfoMessage(b, v)
  {
    hide Bytes;
    var buffer := new ByteVector();
    buffer.bytes := MAGIC + [v.major, v.minor];
    buffer.SerializeAll(Start(b));
    adv := buffer.bytes;
    var body := new ByteVector();
    body.SerializeAll(Body(b));
    buffer.Serialize(Size(|body.bytes|));
    info := buffer.bytes + body.bytes;
  }

  // ----- receiving -----

  function CheckMagicPrefixAndVersion(msg: seq<byte>, v: Version): Option<Error>
    requires |msg| >= ADVERTISING_SIZE
  {
    if msg[..5] != MAGIC then Some(InvalidMagicPrefix)
    else if msg[5] != v.major || msg[6] != v.minor then Some(IncompatibleVersion)
    else None
  }

  function FromFields(start: seq<Field>, body: seq<Field>): Branch
    requires Kinds(start) == [KUuid, KShort] && Kinds(body) == BODY
  {
    HaveKinds(start, [KUuid, KShort]);
    HaveKinds(body, BODY);
    Branch(start[0].bytes, start[1].n, body[0].bytes, body[1].bytes, body[2].bytes, body[3].bytes,
           body[4].bytes, body[5].n, body[6].n, body[7].n, body[8].n, body[9].on)
  }

  lemma HaveKinds(fields: seq<Field>, kinds: seq<Kind>)
    requires Kinds(fields) == kinds
    ensures |fields| == |kinds| && forall i :: 0 <= i < |fields| ==> KindOf(fields[i]) == kinds[i]
  {
    assert forall i :: 0 <= i < |fields| ==> Kinds(fields)[i] == KindOf(fields[i]);
  }

  lemma {:induction false} ParsedKinds(kinds: seq<Kind>, s: seq<byte>)
    requires ParseAll(kinds, s).Some?
    ensures Kinds(ParseAll(kinds, s).value.value) == kinds
  {
    hide Parse;
    if kinds != [] {
      AcceptedIsWritten(kinds[0], s);
      ParsedKinds(kinds[1..], Parse(kinds[0], s).value.rest);
    }
  }

  /** The start of a message always has the bytes it needs. */
  lemma StartParses(s: seq<byte>)
    requires |s| >= 18
    ensures ParseAll([KUuid, KShort], s).Some?
  {
    var kinds: seq<Kind> := [KUuid, KShort];
    assert kinds[1..] == [KShort] && [KShort][1..] == [];
    var rest := Parse(KUuid, s).value.rest;
    assert Parse(KShort, rest).Some?;
    assert ParseAll([], Parse(KShort, rest).value.rest).Some?;
    assert ParseAll([KShort], rest).Some?;
  }

  /** The constructor of RemoteBranchInfo */
  function Receive(msg: seq<byte>, v: Version): Received
    requires |msg| >= HEADER_SIZE
  {
    var error := CheckMagicPrefixAndVersion(msg, v);
    if error.Some? then Rejected(error.value)
    else
      StartParses(msg[7..]);
      var body := ParseAll(BODY, msg[HEADER_SIZE..]);
      if body.None? then Rejected(DeserializeFailed)
      else
        ParsedKinds(BODY, msg[HEADER_SIZE..]);
        ParsedKinds([KUuid, KShort], msg[7..]);
        Received(FromFields(ParseAll([KUuid, KShort], msg[7..]).value.value, body.value.value))
  }

  datatype BodySize = Expected(size: int) | Refused(error: Error)

  /** DeserializeInfoMessageBodySize: how much to read after the header */
  function ExpectedBody(msg: seq<byte>, v: Version): BodySize
    requires |msg| >= HEADER_SIZE
  {
    var error := CheckMagicPrefixAndVersion(msg, v);
    if error.Some? then Refused(error.value)
    else
      var taken := msg[ADVERTISING_SIZE..];
      assert Parse(KSize, taken).Some?;
      Expected(Parse(KSize, taken).value.value.n)
  }

  // ----- what arrives -----

  predicate TypedBranch(b: Branch) {
    (forall f :: f in Start(b) ==> Typed(f)) && forall f :: f in Body(b) ==> Typed(f)
  }

  lemma StartSize(b: Branch)
    requires TypedBranch(b)
    ensures |AllBytes(Start(b))| == 18 && AllFaithful(Start(b))
    ensures Kinds(Start(b)) == [KUuid, KShort] && Kinds(Body(b)) == BODY
  {
    var u, p := Uuid(b.uuid), Short(b.port);
    assert u in Start(b) && p in Start(b);
    assert Start(b)[1..] == [p];
    assert |Bytes(u)| == 16 && |Bytes(p)| == 2;
    assert AllBytes([p]) == Bytes(p) + AllBytes([]);
  }

  /** The pieces of an info message are where the receiver looks for them. */
  lemma Pieces(b: Branch, v: Version, extra: seq<byte>)
    requires TypedBranch(b)
    ensures var msg := InfoMessage(b, v) + extra;
            var size, body := Bytes(Size(|AllBytes(Body(b))|)), AllBytes(Body(b));
            && |msg| >= HEADER_SIZE && msg[..5] == MAGIC && msg[5] == v.major && msg[6] == v.minor
            && msg[7..] == AllBytes(Start(b)) + (size + (body + extra))
            && msg[ADVERTISING_SIZE..] == size + (body + extra)
            && msg[HEADER_SIZE..] == body + extra
  {
    hide Bytes, AllBytes;
    StartSize(b);
    var msg, head, start := InfoMessage(b, v) + extra, MAGIC + [v.major, v.minor], AllBytes(Start(b));
    var size, body := Bytes(Size(|AllBytes(Body(b))|)), AllBytes(Body(b));
    assert |size| == 4 by { SizeSize(|AllBytes(Body(b))|); }
    assert msg == head + (start + (size + (body + extra)));
    assert msg == (head + start) + (size + (body + extra));
    assert msg == (head + start + size) + (body + extra);
  }

  lemma SizeSize(n: nat)
    ensures |Bytes(Size(n))| == 4
  {
  }

  /** The info message, byte by byte */
  lemma InfoMessageLayout(b: Branch, v: Version)
    requires TypedBranch(b)
    ensures b.port >= 0 && Unsigned(b.pid, 0x1_0000_0000) >= 0
    ensures forall n <- [b.startTime, b.timeout, b.interval] :: Unsigned(n, 0x1_0000_0000_0000_0000) >= 0
    ensures var body := b.name + [0] + (b.description + [0] + (b.networkName + [0] + (b.path + [0] + (b.hostname + [0] +
                        (BigEndian(Unsigned(b.pid, 0x1_0000_0000), 4) +
                        (BigEndian(Unsigned(b.startTime, 0x1_0000_0000_0000_0000), 8) +
                        (BigEndian(Unsigned(b.timeout, 0x1_0000_0000_0000_0000), 8) +
                        (BigEndian(Unsigned(b.interval, 0x1_0000_0000_0000_0000), 8) +
                        [if b.ghostMode then 1 else 0]))))))));
            InfoMessage(b, v) ==
            ['Y' as int, 'O' as int, 'G' as int, 'I' as int, 0] + [v.major, v.minor] +
            (b.uuid + BigEndian(b.port, 2)) + BigEndian(|body| % 0x1_0000_0000, 4) + body
  {
    hide Bytes, AllBytes, Typed, Unsigned;
    FieldsTyped(b);
    OnTheWire(Uuid(b.uuid));
    OnTheWire(Short(b.port));
    OnTheWire(Text(b.name));
    OnTheWire(Text(b.description));
    OnTheWire(Text(b.networkName));
    OnTheWire(Text(b.path));
    OnTheWire(Text(b.hostname));
    OnTheWire(Integer(b.pid));
    OnTheWire(Time(b.startTime));
    OnTheWire(Duration(b.timeout));
    OnTheWire(Duration(b.interval));
    OnTheWire(Boolean(b.ghostMode));
    BodyBytes(b);
    StartBytes(b);
    SizeOnTheWire(|AllBytes(Body(b))|);
  }

  lemma SizeOnTheWire(n: nat)
    ensures Bytes(Size(n)) == BigEndian(n % 0x1_0000_0000, 4)
  {
    hide BigEndian;
    PowerValues();
  }

  lemma FieldsTyped(b: Branch)
    requires TypedBranch(b)
    ensures Typed(Uuid(b.uuid)) && Typed(Short(b.port)) && b.port >= 0
    ensures Typed(Text(b.name)) && Typed(Text(b.description)) && Typed(Text(b.networkName)) && Typed(Text(b.path))
    ensures Typed(Text(b.hostname)) && Typed(Integer(b.pid)) && Typed(Time(b.startTime))
    ensures Typed(Duration(b.timeout)) && Typed(Duration(b.interval)) && Typed(Boolean(b.ghostMode))
  {
    assert Uuid(b.uuid) in Start(b) && Short(b.port) in Start(b);
    assert Integer(b.pid) in Body(b) && Time(b.startTime) in Body(b);
    assert Duration(b.timeout) in Body(b) && Duration(b.interval) in Body(b);
  }

  lemma StartBytes(b: Branch)
    ensures AllBytes(Start(b)) == Bytes(Uuid(b.uuid)) + Bytes(Short(b.port))
  {
    hide Bytes;
    FirstBytes(Uuid(b.uuid), [Short(b.port)]);
    FirstBytes(Short(b.port), []);
    assert Start(b) == [Uuid(b.uuid)] + [Short(b.port)] && [Short(b.port)] == [Short(b.port)] + [];
  }

  lemma FirstBytes(f: Field, others: seq<Field>)
    ensures AllBytes([f] + others) == Bytes(f) + AllBytes(others) && AllBytes([]) == []
  {
    assert ([f] + others)[1..] == others;
  }

  lemma BodyBytes(b: Branch)
    ensures AllBytes(Body(b)) ==
            Bytes(Text(b.name)) + (Bytes(Text(b.description)) + (Bytes(Text(b.networkName)) + (Bytes(Text(b.path)) +
            (Bytes(Text(b.hostname)) + (Bytes(Integer(b.pid)) + (Bytes(Time(b.startTime)) +
            (Bytes(Duration(b.timeout)) + (Bytes(Duration(b.interval)) + Bytes(Boolean(b.ghostMode))))))))))
  {
    hide Bytes, AllBytes;
    var times := [Time(b.startTime), Duration(b.timeout), Duration(b.interval), Boolean(b.ghostMode)];
    FirstBytes(times[3], []);
    FirstBytes(times[2], [times[3]]);
    FirstBytes(times[1], [times[2], times[3]]);
    FirstBytes(times[0], [times[1], times[2], times[3]]);
    var rest := [Integer(b.pid)] + times;
    FirstBytes(Integer(b.pid), times);
    FirstBytes(Text(b.hostname), rest);
    FirstBytes(Text(b.path), [Text(b.hostname)] + rest);
    FirstBytes(Text(b.networkName), [Text(b.path)] + ([Text(b.hostname)] + rest));
    FirstBytes(Text(b.description), [Text(b.networkName)] + ([Text(b.path)] + ([Text(b.hostname)] + rest)));
    FirstBytes(Text(b.name),
               [Text(b.description)] + ([Text(b.networkName)] + ([Text(b.path)] + ([Text(b.hostname)] + rest))));
    assert times == [times[0]] + [times[1], times[2], times[3]];
    assert [times[1], times[2], times[3]] == [times[1]] + [times[2], times[3]];
    assert [times[2], times[3]] == [times[2]] + [times[3]] && [times[3]] == [times[3]] + [];
    assert Body(b) == [Text(b.name)] + ([Text(b.description)] + ([Text(b.networkName)] + ([Text(b.path)] +
                      ([Text(b.hostname)] + rest))));
  }

  /** The prefix is looked at first, then the version. */
  lemma RefusedByItsStart(msg: seq<byte>, v: Version)
    requires |msg| >= HEADER_SIZE
    ensures ExpectedBody(msg, v).Refused? ==> Receive(msg, v) == Rejected(ExpectedBody(msg, v).error)
    ensures var yogi := msg[0] == 'Y' as int && msg[1] == 'O' as int && msg[2] == 'G' as int && msg[3] == 'I' as int &&
                        msg[4] == 0;
            var current := msg[5] == v.major && msg[6] == v.minor;
            && (Receive(msg, v) == Rejected(InvalidMagicPrefix) <==> !yogi)
            && (Receive(msg, v) == Rejected(IncompatibleVersion) <==> yogi && !current)
            && (ExpectedBody(msg, v).Expected? <==> yogi && current)
  {
    hide ParseAll;
    assert forall i :: 0 <= i < 5 ==> msg[..5][i] == msg[i];
    if msg[0] == 'Y' as int && msg[1] == 'O' as int && msg[2] == 'G' as int && msg[3] == 'I' as int && msg[4] == 0 {
      assert msg[..5] == MAGIC;
    }
  }

  /** A branch is received as it was sent exactly if none of its strings contains a NUL;
      bytes after the message make no difference. */
  lemma InfoMessageArrives(b: Branch, v: Version, extra: seq<byte>)
    requires TypedBranch(b)
    ensures |InfoMessage(b, v) + extra| >= HEADER_SIZE
    ensures Receive(InfoMessage(b, v) + extra, v) == Received(b) <==>
            0 !in b.name && 0 !in b.description && 0 !in b.networkName && 0 !in b.path && 0 !in b.hostname
  {
    hide Bytes, AllBytes, ParseAll, Typed;
    var msg := InfoMessage(b, v) + extra;
    Pieces(b, v, extra);
    StartSize(b);
    RoundTrip(Start(b), Bytes(Size(|AllBytes(Body(b))|)) + (AllBytes(Body(b)) + extra));
    RoundTrip(Body(b), extra);
    BodyFaithful(b);
    var body := ParseAll(BODY, msg[HEADER_SIZE..]);
    if body.Some? {
      ParsedKinds(BODY, msg[HEADER_SIZE..]);
      SameBranch(b, Start(b), body.value.value);
    }
  }

  lemma BodyFaithful(b: Branch)
    ensures AllFaithful(Body(b)) <==>
            0 !in b.name && 0 !in b.description && 0 !in b.networkName && 0 !in b.path && 0 !in b.hostname
  {
    assert Text(b.name) in Body(b) && Text(b.description) in Body(b) && Text(b.networkName) in Body(b);
    assert Text(b.path) in Body(b) && Text(b.hostname) in Body(b);
  }

  lemma SameBranch(b: Branch, start: seq<Field>, body: seq<Field>)
    requires start == Start(b) && Kinds(start) == [KUuid, KShort] && Kinds(body) == BODY
    ensures FromFields(start, body) == b <==> body == Body(b)
  {
    HaveKinds(body, BODY);
    if FromFields(start, body) == b {
      forall i | 0 <= i < 10
        ensures body[i] == Body(b)[i]
      {
      }
    }
  }

  /** The receiver knows how much to read, exactly if the body has less than 2^32 bytes. */
  lemma BodySizeArrives(b: Branch, v: Version)
    requires TypedBranch(b) && |AllBytes(Body(b))| < 0x1_0000_0000_0000_0000
    ensures |InfoMessage(b, v)| >= HEADER_SIZE && ExpectedBody(InfoMessage(b, v), v).Expected?
    ensures ExpectedBody(InfoMessage(b, v), v) == Expected(|AllBytes(Body(b))|) <==>
            |AllBytes(Body(b))| < 0x1_0000_0000
  {
    hide Bytes, AllBytes, Parse;
    Pieces(b, v, []);
    assert InfoMessage(b, v) + [] == InfoMessage(b, v);
    FieldComesBack(Size(|AllBytes(Body(b))|), AllBytes(Body(b)) + []);
    AcceptedIsWritten(KSize, InfoMessage(b, v)[ADVERTISING_SIZE..]);
  }

  /** A branch of another version is not accepted. */
  lemma OtherVersionIsRejected(b: Branch, v: Version, w: Version, extra: seq<byte>)
    requires TypedBranch(b) && v != w
    ensures |InfoMessage(b, v) + extra| >= HEADER_SIZE
    ensures Receive(InfoMessage(b, v) + extra, w) == Rejected(IncompatibleVersion)
  {
    hide AllBytes, ParseAll;
    Pieces(b, v, extra);
  }
}
