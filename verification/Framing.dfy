/** Streams of length-prefixed messages, as a sender writes them and as a receiver with a
    given buffer capacity takes them apart. */
module Framing {
  import opened Common
  import opened SizeField

  type Message = seq<byte>

  function Frame(m: Message): seq<byte> {
    Encode(|m|) + m
  }

  function Frames(ms: seq<Message>): seq<byte> {
    if ms == [] then [] else Frame(ms[0]) + Frames(ms[1..])
  }

  lemma {:induction false} FramesConcat(a: seq<Message>, b: seq<Message>)
    ensures Frames(a + b) == Frames(a) + Frames(b)
  {
    if a == [] {
      assert a + b == b;
    } else {
      assert (a + b)[1..] == a[1..] + b;
      FramesConcat(a[1..], b);
    }
  }

  lemma FramesAppend(ms: seq<Message>, m: Message)
    ensures Frames(ms + [m]) == Frames(ms) + Frame(m)
  {
    FramesConcat(ms, [m]);
    assert Frames([m]) == Frame(m) + Frames([m][1..]);
  }

  /** A frame found on a stream. The header need not be the shortest one for its size. */
  datatype WireFrame = WireFrame(header: seq<byte>, payload: Message)

  ghost predicate Framed(f: WireFrame, capacity: nat) {
    ScanHeader(f.header) == Field(|f.payload|, |f.header|) && |f.payload| <= capacity
  }

  ghost predicate AllFramed(fs: seq<WireFrame>, capacity: nat) {
    forall i :: 0 <= i < |fs| ==> Framed(fs[i], capacity)
  }

  function Raw(fs: seq<WireFrame>): seq<byte> {
    if fs == [] then [] else fs[0].header + fs[0].payload + Raw(fs[1..])
  }

  function Payloads(fs: seq<WireFrame>): (ms: seq<Message>)
    ensures |ms| == |fs|
    ensures forall i :: 0 <= i < |fs| ==> ms[i] == fs[i].payload
  {
    if fs == [] then [] else [fs[0].payload] + Payloads(fs[1..])
  }

  lemma {:induction false} RawAppend(fs: seq<WireFrame>, f: WireFrame)
    ensures Raw(fs + [f]) == Raw(fs) + f.header + f.payload
    ensures Payloads(fs + [f]) == Payloads(fs) + [f.payload]
  {
    if fs == [] {
      assert Raw([f]) == f.header + f.payload + Raw([f][1..]);
    } else {
      assert (fs + [f])[1..] == fs[1..] + [f];
      RawAppend(fs[1..], f);
    }
  }

  /** The messages of a stream, read in one go: the reference for every chunked reception. */
  function Parse(stream: seq<byte>, capacity: nat): seq<Message>
    decreases |stream|
  {
    var h := ScanHeader(stream);
    if h.Field? && h.size <= capacity && h.length + h.size <= |stream| then
      [stream[h.length..h.length + h.size]] + Parse(stream[h.length + h.size..], capacity)
    else []
  }

  /** No complete message of acceptable size stands at the front of the stream. */
  ghost predicate Blocked(stream: seq<byte>, capacity: nat) {
    var h := ScanHeader(stream);
    h.Field? ==> h.size > capacity || h.length + h.size > |stream|
  }

  lemma FramedScan(f: WireFrame, capacity: nat, tail: seq<byte>)
    requires Framed(f, capacity)
    ensures ScanHeader(f.header + tail) == Field(|f.payload|, |f.header|)
  {
    ScanExtends(f.header, tail);
  }

  /** Taking well-formed frames off a stream is what parsing it does. */
  lemma {:induction false} ParseRaw(fs: seq<WireFrame>, capacity: nat, tail: seq<byte>)
    requires AllFramed(fs, capacity)
    ensures Parse(Raw(fs) + tail, capacity) == Payloads(fs) + Parse(tail, capacity)
  {
    hide ScanHeader, EndByte;
    if fs == [] {
      assert Raw(fs) + tail == tail;
    } else {
      var f := fs[0];
      var rest := Raw(fs[1..]) + tail;
      var stream := Raw(fs) + tail;
      ConcatAssociative(f.header + f.payload, Raw(fs[1..]), tail);
      SplitThree(stream, f.header, f.payload, rest);
      FramedScan(f, capacity, f.payload + rest);
      ParseRaw(fs[1..], capacity, tail);
    }
  }

  /** Parsing what a sender wrote gives back the messages. */
  lemma {:induction false} ParseFrames(ms: seq<Message>, capacity: nat)
    requires forall m <- ms :: |m| < SIZE_LIMIT && |m| <= capacity
    ensures Parse(Frames(ms), capacity) == ms
  {
    if ms != [] {
      var m := ms[0];
      var stream := Frames(ms);
      SplitThree(stream, Encode(|m|), m, Frames(ms[1..]));
      RoundTrip(|m|, m + Frames(ms[1..]));
      ParseFrames(ms[1..], capacity);
    }
  }

  /** One frame taken off the front of a sender's stream is the sender's first message. */
  lemma FirstTaken(f: WireFrame, rest: seq<byte>, m: Message, sent: seq<byte>, capacity: nat)
    requires Framed(f, capacity) && |m| < SIZE_LIMIT
    requires f.header + f.payload + rest <= Frame(m) + sent
    ensures f.payload == m && rest <= sent
  {
    hide ScanHeader, EndByte, EncodeGroups;
    var got, all := f.header + f.payload + rest, Frame(m) + sent;
    SplitThree(got, f.header, f.payload, rest);
    SplitThree(all, Encode(|m|), m, sent);
    FramedScan(f, capacity, f.payload + rest);
    PrefixCompletes(got, all);
    ScanExtends(got, all[|got|..]);
    RoundTrip(|m|, m + sent);
    assert |f.header| == |Encode(|m|)| && |f.payload| == |m|;
  }

  /** A receiver that took frames `fs` off a stream that is a prefix of what a sender wrote
      got the sender's messages, in order; what it has left is a prefix of the rest. */
  lemma {:induction false} TakenArePrefix(fs: seq<WireFrame>, tail: seq<byte>, ms: seq<Message>, capacity: nat)
    requires AllFramed(fs, capacity)
    requires forall m <- ms :: |m| < SIZE_LIMIT
    requires Raw(fs) + tail <= Frames(ms)
    ensures Payloads(fs) <= ms
    ensures tail <= Frames(ms[|fs|..])
  {
    hide ScanHeader, EndByte, EncodeGroups;
    if fs == [] {
      assert Raw(fs) + tail == tail;
    } else {
      var f, rest := fs[0], Raw(fs[1..]) + tail;
      ConcatAssociative(f.header + f.payload, Raw(fs[1..]), tail);
      FramedScan(f, capacity, f.payload + rest);
      FirstTaken(f, rest, ms[0], Frames(ms[1..]), capacity);
      TakenArePrefix(fs[1..], tail, ms[1..], capacity);
      assert ms[1..][|fs[1..]|..] == ms[|fs|..];
    }
  }

  /** What the beginning of a sender's stream shows: never anything malformed, and the size of the
      first message exactly from its last header byte on. */
  lemma HeaderArrived(tail: seq<byte>, ms: seq<Message>)
    requires forall m <- ms :: |m| < SIZE_LIMIT
    requires tail <= Frames(ms)
    ensures !ScanHeader(tail).Malformed?
    ensures ScanHeader(tail).Field? <==> ms != [] && |tail| >= |Encode(|ms[0]|)|
    ensures ScanHeader(tail).Field? ==> ScanHeader(tail).size == |ms[0]|
  {
    hide ScanHeader, EndByte, EncodeGroups, DecodeFrom;
    if ms == [] {
      ScanOfNothing();
    } else {
      var code, rest := Encode(|ms[0]|), ms[0] + Frames(ms[1..]);
      ConcatAssociative(code, ms[0], Frames(ms[1..]));
      assert tail <= code + rest;
      if |tail| < |code| {
        assert tail == code[..|tail|];
        StrictPrefixIncomplete(|ms[0]|, |tail|);
      } else {
        assert tail == code + tail[|code|..];
        RoundTrip(|ms[0]|, tail[|code|..]);
      }
    }
  }

  lemma ScanOfNothing()
    ensures ScanHeader([]) == Incomplete
  {
  }

  /** Nothing complete at the front of a prefix of frames means that the prefix ends within
      the next frame; with the whole of them received, nothing is left. */
  lemma BlockedPrefix(tail: seq<byte>, ms: seq<Message>, capacity: nat)
    requires forall m <- ms :: |m| < SIZE_LIMIT && |m| <= capacity
    requires tail <= Frames(ms)
    ensures var h := ScanHeader(tail);
            !h.Malformed? && (h.Field? ==> h.size <= capacity && ms != [] && h.size == |ms[0]|)
    ensures tail == Frames(ms) && Blocked(tail, capacity) ==> ms == []
  {
    hide ScanHeader, EndByte, EncodeGroups;
    HeaderArrived(tail, ms);
    if ms != [] {
      ConcatAssociative(Encode(|ms[0]|), ms[0], Frames(ms[1..]));
      RoundTrip(|ms[0]|, ms[0] + Frames(ms[1..]));
    }
  }
}
