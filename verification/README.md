# Verified model of the Yogi core

This project models the parts of the Yogi core library whose correctness is hardest to see, and
proves what they are there for.

**The framed message channel.** `MessageTransport` sends length-prefixed messages over a transport
that moves any number of bytes at a time. `SizeField` is the codec of the length prefix, `Framing`
the stream of frames and a one-pass parser that serves as the reference, `RingBuffer` the circular
buffer as an abstract bounded queue with the class that implements it over an array. `SendSide` and
`ReceiveSide` are the two halves as state machines over values; class `MessageTransport` is proved
to take exactly their steps, method by method. `SendProperties`, `ReceiveProperties` and `Channel`
draw the conclusions for whole runs, up to the end-to-end theorem for two transports joined by a
byte stream. `SpscRing` is the ring buffer once more, with every load, store and copied byte as a
step of its own, as a queue between two concurrent threads. `Transport` is the repetition of partial
transfers in SendAllAsync and ReceiveAllAsync, and `Exchange` joins one of each by a byte stream.

**The configuration.** `Variables` is the elimination of one variable after the other, and says
exactly when it detects a circle; `VariableExpansion` says what the result means; `VariableTypes`
says when a result has the right type. `DocumentResolution` does the same for the other elements of
a document. `Json` is merging, `Updates` what sequences of updates make of the document,
`Configuration` the checks, the resolution of a whole document and the class invariant, and
`Immutability` how far values from the command line are protected. There references are tokens.
`VariableText`, `TextualResolution` and `TextualConfiguration` connect them with the source's string
operations, over all rounds and for whole documents.

**Signals, objects and fields.** `SignalSet` is the delivery of signals to sets with the shared
reference count, `SignalOrder` who is notified, how often and in what order, and when handlers are
called in that order, `ObjectRegister` the destruction of objects along their pointers, `Serialize`
the field format and `BranchMessages` the messages built from it.

Findings, each with the exact condition proved:

- ReceiveAsync asserts that no size field is held, before it looks at an earlier error. That is not
  an invariant: it fails exactly if the last receive that waited ended without a message, by a
  cancellation, a failed read or an oversized message, after the size field of the next message had
  arrived in full (`ReceiveProperties.FieldHeldExactly`, with an example of each). The model follows
  the code with the assertion compiled out, and no message is lost then.
- Start asks its transport for zero bytes, which the transport asserts never happens, exactly if no
  read is under way and the ring is full (`ReceiveProperties.StartReadsNothing`, with an example).
  With that assertion compiled out the invariants hold all the same, and such a read is the only one
  that asks for nothing (`ReceiveProperties.NoLostWakeUp`).
- The documentation says that options given on the command line are never updated from another
  source (`yogi_core.h:427-428`). They are if there is a second command line: a value is protected
  exactly if the direct part of the last accepted command line puts it there
  (`Immutability.ImmutableStays`, `Updates.ImmutableIsLast`, with an example).
- The documentation says that a string changes its type if and only if it is a placeholder alone
  (`yogi_core.h:416-423`). A string whose references all expand to nothing, except the last one to be
  replaced, does so too: exactly then the rule fails, for variables and for all other elements
  (`VariableTypes.TypesRightIffNoCollapse`, `DocumentResolution.RuleExactly`,
  `Configuration.TypesAsPromisedExactly`, with examples).
- A set can be notified of two signals in another order than they were raised. When the second is
  raised, that can still happen exactly if some set that the first RaiseSignal has yet to notify wants
  the second as well (`SignalOrder.RaisedInOrderExactly`, with an example).
- The size field holds sizes modulo 2^35 (`SizeField.RoundTrip`).
- DestroyAll asserts that nothing is left. That holds exactly if no pointer from outside, and no
  cycle of pointers, leads to a registered object (`ObjectRegister.EmptyExactly`).
- A string with a NUL, and a size of 2^32 or more, do not survive serialization
  (`Serialize.RoundTrip`).

The state machines have history fields (the bytes on the wire, the calls of handlers and so on) that
no step depends on. Handlers are numbered in the order of the calls they belong to. In the classes,
what exists for the proofs only is ghost.

## Model

| member | source | states |
|---|---|---|
| Channel.DeliveredInOrder | yogi-core/src/network/msg_transport.cc:150-323 | In every reachable state of two transports joined by a byte stream, for every chunking and interleaving, the k-th message handed to the receiver's callers is the k-th message submitted and neither refused nor cancelled, byte for byte up to the room given, provided sizes stay below 2^35 |
| Channel.NoFramingError | yogi-core/src/network/msg_transport.cc:239-268 | Messages below 2^35 bytes that fit the receiver's ring never make it report a malformed or oversized size field |
| Channel.QuiescentIsComplete | yogi-core/src/network/msg_transport.cc:200-237 | When nothing is under way any more and a receive is pending, every submitted message has been delivered |
| Channel.PendingIsServed | yogi-core/src/network/msg_transport.cc:200-323 | A pending receive gets the next submitted message on every schedule: writes and reads may be completed in any order and with any number of bytes; as long as it waits one of them can be completed, and after at most as many completions as the measure says it has been served, with exactly one message |
| Channel.NotStuck | yogi-core/src/network/msg_transport.cc:200-299 | While a submitted message is undelivered and a receive waits, a write or a read is under way that can be completed |
| Channel.FramingErrorExactly | yogi-core/src/network/msg_transport.cc:254-263 | While a receive is pending, or after the error, the receiver has reported a malformed or oversized size field exactly if the next message is larger than its ring and the size field of that message has arrived in full |
| Channel.WireGrows | yogi-core/src/network/msg_transport.cc:200-226 | No step of the sending side takes back a byte that was handed to the peer |
| Channel.ReceivedGrows | yogi-core/src/network/msg_transport.cc:275-299 | Only the completion of a read adds to what has been received, and it adds the chunk |
| Channel.SidesAct | yogi-core/src/network/msg_transport.cc:200-299 | Each side takes its own steps and leaves the other alone, and the bytes that arrive are the next ones in flight |
| ReceiveProperties.DeliveriesAreTheParse | yogi-core/src/network/msg_transport.cc:239-323 | The messages delivered so far are a beginning of what parsing all received bytes in one go gives, and all of it when a receive is pending or a framing error occurred: neither chunking, truncation nor cancellation desynchronises the framing or loses a message |
| ReceiveProperties.ChunkingDoesNotMatter | yogi-core/src/network/msg_transport.cc:239-323 | Two reachable states with the same received bytes and a pending receive have delivered the same messages, however the bytes were cut |
| ReceiveProperties.DeliveredAtOnce | yogi-core/src/network/msg_transport.cc:280-323 | The chunk that completes a message completes the pending receive, with that message |
| ReceiveProperties.NextIsTold | yogi-core/src/network/msg_transport.cc:123-148 | What each event does, over the undelivered stream: a waiting receive is failed by a bad stream, gets the first message of the stream, as much of it as there is room for, or goes on waiting; a cancellation, a failed read and an earlier error each tell it exactly that; nothing else is told to anybody |
| ReceiveProperties.EndedReceiveIsTold | yogi-core/src/network/msg_transport.cc:340-352 | A waiting receive that ends without a message is told why, once, with nothing in its buffer: cancelled exactly if it was, otherwise the error that is kept from then on, the one of the failed read or that of a bad stream |
| ReceiveProperties.ReadsAskForAll | yogi-core/src/network/msg_transport.cc:275-299 | A read that is issued asks for all free space in one piece; one is issued after every completed read that leaves room |
| ReceiveProperties.PendingIsBlocked | yogi-core/src/network/msg_transport.cc:301-323 | A pending receive stands before an incomplete, not malformed message |
| ReceiveProperties.ErrorLatch | yogi-core/src/network/msg_transport.cc:123-131 | After any receive error, whatever follows, no message is delivered and no handler stays pending |
| ReceiveProperties.NoLostWakeUp | yogi-core/src/network/msg_transport.cc:275-299 | In every reachable state a pending receive has a read under way, a started, error-free transport has one unless its ring is full, and a read under way asks for nothing exactly if Start issued it into a full ring |
| ReceiveProperties.FieldHeldExactly | yogi-core/src/network/msg_transport.cc:126 | In every run, with or without an error, when no receive is pending a size field is held, so that the assertion in ReceiveAsync fails at the next call, exactly if the last receive that waited ended without a message (cancelled, failed read, or oversized message) after the size field of the next message had arrived in full |
| ReceiveProperties.StartReadsNothing | yogi-core/src/network/msg_transport.cc:80 | Start asks the transport for zero bytes exactly if no read is under way and the ring is full |
| ReceiveProperties.StartReadsNothingExample | yogi-core/src/network/msg_transport.cc:80 | Two concrete runs that lead there, one of them by an earlier Start |
| ReceiveProperties.NextIdle | yogi-core/src/network/msg_transport.cc:128-131 | While no receive waits, no step touches the held size field, a ReceiveAsync after an error included |
| ReceiveProperties.NextEnds | yogi-core/src/network/msg_transport.cc:126-148 | The step that ends a waiting receive leaves a size field behind exactly if it hands over no message and the field has arrived |
| ReceiveProperties.NoFieldHeldWithoutCancel | yogi-core/src/network/msg_transport.cc:126 | Without a cancellation and without a receive error the assertion that no size field is held holds at every call |
| ReceiveProperties.FieldHeldExample | yogi-core/src/network/msg_transport.cc:126 | Three concrete runs after which it fails: by a cancellation, by a failed read, by an oversized message |
| ReceiveSide.AcquireByBytes | yogi-core/src/utils/ringbuffer.h:51-63 | Popping bytes until the size field is complete comes to the same state as scanning all undelivered bytes at once |
| ReceiveSide.AcquireOk | yogi-core/src/network/msg_transport.cc:239-268 | Scanning keeps the held header well formed; it is rejected only if the stream itself is bad; an incomplete one leaves the ring empty |
| ReceiveSide.ReceiveAsyncKeepsInv | yogi-core/src/network/msg_transport.cc:123-138 | ReceiveAsync keeps the receive-stream invariant: received bytes are the delivered frames, the held header and the ring; handlers are called once each and in order; reads are under way when they must be |
| ReceiveSide.ReadCompletedKeepsInv | yogi-core/src/network/msg_transport.cc:280-298 | The completion of a read, of any number of bytes, keeps it |
| ReceiveSide.CancelReceiveKeepsInv | yogi-core/src/network/msg_transport.cc:140-148 | CancelReceive keeps it |
| ReceiveSide.ReadFailedKeepsInv | yogi-core/src/network/msg_transport.cc:285-288 | A failing read keeps it |
| ReceiveSide.TryDeliverKeepsCore | yogi-core/src/network/msg_transport.cc:301-323 | Delivering, or not yet delivering, a message keeps the stream, error and completion parts of it |
| ReceiveSide.Run | yogi-core/src/network/msg_transport.cc:123-148 | The invariant holds after every sequence of calls and transport completions |
| SendProperties.StreamInOrder | yogi-core/src/network/msg_transport.cc:82-121 | Wire bytes are always a beginning of the frames of the accepted, not cancelled messages in submission order; until an error wire, ring and pending sends together are exactly those frames |
| SendProperties.TryIsAllOrNothing | yogi-core/src/network/msg_transport.cc:82-93 | TrySend says yes exactly if the message has taken its place behind all messages accepted before; otherwise neither ring, wire nor pending sends change; it throws exactly after an error |
| SendProperties.TrySendAnswers | yogi-core/src/network/msg_transport.cc:82-93 | TrySend says yes exactly if there was no error, nothing waits and the message with its size field fits into the free space; it throws exactly after an error, that error; a yes puts size field and message behind the bytes in the ring and has a write under way, anything else leaves the stream alone |
| SendProperties.FitsAnEmptyRing | yogi-core/src/network/msg_transport.cc:170-171 | The messages that callers must not submit are exactly those that not even an empty ring has room for |
| SendProperties.SendAsyncAnswers | yogi-core/src/network/msg_transport.cc:177-198 | The handler of SendAsync is called at once, with success exactly if the message goes out now, and with the error exactly if there was one; otherwise the message waits behind all others, with its tag |
| SendProperties.WrittenLetsOut | yogi-core/src/network/msg_transport.cc:211-237 | A completed write hands over exactly its bytes and lets out the longest beginning of the pending sends that fits, in order, their handlers being called with success; if bytes are left a write of all that lie in one piece is under way |
| SendProperties.FailedWriteTellsAll | yogi-core/src/network/msg_transport.cc:325-338 | After a failed write the error is kept and the handlers of all pending sends are called with that error, in the order of the calls |
| SendProperties.AsyncIsAccepted | yogi-core/src/network/msg_transport.cc:177-198 | SendAsync accepts the message behind all others unless there was an error, which the handler is then told |
| SendProperties.CancelHitsTag | yogi-core/src/network/msg_transport.cc:105-121 | CancelSend finds the pending send with the tag exactly if there is one, takes it and no other out of the queue, calls its handler with the cancellation and touches neither ring nor wire |
| SendProperties.WriteProgress | yogi-core/src/network/msg_transport.cc:211-225 | A completed write of n bytes brings the end nearer by exactly n, and a write is under way as long as anything remains |
| SendProperties.NothingRemains | yogi-core/src/network/msg_transport.cc:200-226 | Without an error and without a write under way nothing is pending and everything accepted is on the wire |
| SendProperties.WritesSendAll | yogi-core/src/network/msg_transport.cc:200-237 | From every reachable error-free state, however little each write transfers, there are at most as many writes as bytes remain, there is another one as long as anything remains, and then everything accepted is on the wire and nothing pending |
| SendSide.TrySendKeepsInv | yogi-core/src/network/msg_transport.cc:82-93 | TrySend keeps the send-stream invariant: order, stream, exactly-once completion with the right outcome, distinct tags, and a write under way exactly while the ring holds bytes |
| SendSide.SendAsyncKeepsInv | yogi-core/src/network/msg_transport.cc:177-198 | SendAsync keeps it |
| SendSide.CancelSendKeepsInv | yogi-core/src/network/msg_transport.cc:105-121 | CancelSend keeps it: a cancelled message leaves no part of a frame behind |
| SendSide.WriteCompletedKeepsInv | yogi-core/src/network/msg_transport.cc:216-225 | The completion of a write keeps it, with all retries of pending sends |
| SendSide.WriteFailedKeepsInv | yogi-core/src/network/msg_transport.cc:211-214 | A failing write keeps it: every pending handler is called once, with the error |
| SendSide.LiveWithdraw | yogi-core/src/network/msg_transport.cc:105-121 | Cancelling takes exactly the cancelled call out of the submission order |
| SendSide.Run | yogi-core/src/network/msg_transport.cc:82-121 | The invariant holds after every sequence of calls and transport completions |
| MessageTransport.MessageTransport.constructor | yogi-core/src/network/msg_transport.cc:66-78 | A new transport is the initial state of both halves, with new rings, arrays and buffer and the capacities asked for |
| MessageTransport.MessageTransport.TrySend | yogi-core/src/network/msg_transport.cc:82-93 | Takes the TrySend step, result or exception included, and leaves the receiving half alone |
| MessageTransport.MessageTransport.SendAsync | yogi-core/src/network/msg_transport.cc:177-198 | Takes the SendAsync step; when the message is queued a write is under way, as the source asserts |
| MessageTransport.MessageTransport.CancelSend | yogi-core/src/network/msg_transport.cc:105-121 | Takes the CancelSend step and reports whether the tag was pending |
| MessageTransport.MessageTransport.TrySendImpl | yogi-core/src/network/msg_transport.cc:150-166 | Appends the whole frame to the ring and has a write under way, or changes nothing, according to CanSend |
| MessageTransport.MessageTransport.CanSend | yogi-core/src/network/msg_transport.cc:168-175 | Shortcut and exact test together decide whether the whole frame fits the free space |
| MessageTransport.MessageTransport.SendSomeBytesToTransport | yogi-core/src/network/msg_transport.cc:200-226 | Issues a write of the first contiguous piece unless one is under way |
| MessageTransport.MessageTransport.RetrySendingPendingSends | yogi-core/src/network/msg_transport.cc:228-237 | Moves pending sends to the ring in order up to the first that does not fit |
| MessageTransport.MessageTransport.OnSendCompleted | yogi-core/src/network/msg_transport.cc:216-225 | Takes the step for a completed write of n bytes |
| MessageTransport.MessageTransport.OnSendFailed | yogi-core/src/network/msg_transport.cc:211-214 | Takes the step for a failed write |
| MessageTransport.MessageTransport.HandleSendError | yogi-core/src/network/msg_transport.cc:325-338 | Closes the transport, latches the error and gives every pending send its handler call, in order |
| MessageTransport.MessageTransport.Close | yogi-core/src/network/msg_transport.h:68 | Closes the transport |
| MessageTransport.MessageTransport.Start | yogi-core/src/network/msg_transport.cc:80 | Has a read under way, whatever the state of the ring |
| MessageTransport.MessageTransport.ReceiveAsync | yogi-core/src/network/msg_transport.cc:123-138 | Takes the ReceiveAsync step and puts the data of a completed receive at the start of the caller's buffer |
| MessageTransport.MessageTransport.CancelReceive | yogi-core/src/network/msg_transport.cc:140-148 | Takes the CancelReceive step |
| MessageTransport.MessageTransport.TryGetReceivedSizeField | yogi-core/src/network/msg_transport.cc:239-268 | Takes the scan step and returns the size if the field is complete; the five-byte buffer is never overrun |
| MessageTransport.MessageTransport.PopUntilSizeField | yogi-core/src/utils/ringbuffer.h:51-63 | The loop over the ring stops at the byte that ends the field, the fifth byte, or the last byte |
| MessageTransport.MessageTransport.OnSizeFieldByte | yogi-core/src/network/msg_transport.cc:245-265 | One byte is added to the held header; stops exactly if the field is complete or five bytes are held, and fails the receive if it is rejected |
| MessageTransport.MessageTransport.TryDeliveringPendingReceive | yogi-core/src/network/msg_transport.cc:301-323 | Takes the delivery step, data in the buffer included |
| MessageTransport.MessageTransport.DeliverSize | yogi-core/src/network/msg_transport.cc:309-322 | Removes the whole message from the ring, however small the buffer, and reports success or a buffer that is too small |
| MessageTransport.MessageTransport.ReadIntoBuffer | yogi-core/src/network/msg_transport.cc:313-317 | The buffer gets the first bytes of the message and the ring loses all of it |
| MessageTransport.MessageTransport.OnReceiveCompleted | yogi-core/src/network/msg_transport.cc:290-297 | Takes the step for a completed read |
| MessageTransport.MessageTransport.OnReceiveFailed | yogi-core/src/network/msg_transport.cc:285-288 | Takes the step for a failed read |
| MessageTransport.MessageTransport.HandleReceiveError | yogi-core/src/network/msg_transport.cc:340-352 | Closes the transport, latches the error and completes a pending receive with it |
| MessageTransport.MessageTransport.ReceiveSomeBytesFromTransport | yogi-core/src/network/msg_transport.cc:275-299 | Issues a read into the first contiguous free piece unless one is under way |
| SizeField.RoundTrip | yogi-core/src/network/msg_transport.cc:24-62 | Decoding an encoded size followed by anything gives the size modulo 2^35, hence the size exactly if it is below 2^35 |
| SizeField.StrictPrefixIncomplete | yogi-core/src/network/msg_transport.cc:43-62 | No strict prefix of an encoding decodes, so byte-at-a-time decoding stops at the same byte as one-shot decoding |
| SizeField.ScanExtends | yogi-core/src/network/msg_transport.cc:245-265 | A header once recognised, or rejected, stays so however much more arrives |
| SizeField.DecodeSome | yogi-core/src/network/msg_transport.cc:49-61 | Decoding succeeds exactly if some byte has bit 7 clear |
| SizeField.DecodeEnds | yogi-core/src/network/msg_transport.cc:49-61 | Bytes after the first with bit 7 clear do not matter |
| SizeField.DecodeGroups | yogi-core/src/network/msg_transport.cc:29-62 | The last groups of a size decode to it, given the groups before them |
| SizeField.EncodeModulo | yogi-core/src/network/msg_transport.cc:29-41 | Bits above the encoded groups are lost |
| SizeField.FieldLengthFits | yogi-core/src/network/msg_transport.cc:24-27 | The chosen length, one to five, holds every size below 2^35 |
| SizeField.FieldLengthIsLeast | yogi-core/src/network/msg_transport.cc:24-27 | And no shorter one does |
| SizeField.HeaderExactly | yogi-core/src/network/msg_transport.cc:245-265 | A size field ends with the first byte below 128, among the first five; its value is that of the low seven bits of its bytes; five bytes from 128 on are malformed |
| SizeField.FastPathAgrees | yogi-core/src/network/msg_transport.cc:173-174 | The size + 5 shortcut never changes the answer of the exact test |
| SizeField.SerializeMsgSizeField | yogi-core/src/network/msg_transport.cc:29-41 | Writes the encoding to the start of the buffer and nothing else |
| SizeField.DeserializeMsgSizeField | yogi-core/src/network/msg_transport.cc:43-62 | Succeeds exactly if the bytes decode, with that value |
| Framing.ParseFrames | yogi-core/src/network/msg_transport.cc:150-166 | Parsing what a sender wrote gives back its messages |
| Framing.ParseRaw | yogi-core/src/network/msg_transport.cc:301-323 | Taking well-formed frames off a stream one by one is what parsing the stream does, also for headers longer than necessary |
| Framing.TakenArePrefix | yogi-core/src/network/msg_transport.cc:301-323 | Frames taken off a prefix of a sender's stream carry the sender's messages in order, and what is left is a prefix of the rest |
| Framing.HeaderArrived | yogi-core/src/network/msg_transport.cc:239-268 | The beginning of a sender's stream never looks malformed, and shows the size of the first message exactly from its last header byte on |
| Framing.BlockedPrefix | yogi-core/src/network/msg_transport.cc:304-307 | A prefix of a sender's stream never looks malformed or oversized, and if all of it has arrived and nothing can be taken off, nothing is left |
| RingBuffer.LockFreeRingBuffer.constructor | yogi-core/src/utils/ringbuffer.cc:22-27 | An empty queue of the given capacity |
| RingBuffer.LockFreeRingBuffer.Read | yogi-core/src/utils/ringbuffer.cc:62-95 | Copies out and removes the first min(maxSize, available) bytes and leaves the rest of the target alone |
| RingBuffer.LockFreeRingBuffer.Fetch | yogi-core/src/utils/ringbuffer.cc:73-91 | The copy in one or two pieces puts the first n bytes of the queue into the target and leaves the rest of it alone |
| RingBuffer.LockFreeRingBuffer.Discard | yogi-core/src/utils/ringbuffer.cc:97-119 | Removes as many bytes as Read would |
| RingBuffer.LockFreeRingBuffer.Pop | yogi-core/src/utils/ringbuffer.cc:46-54 | Removes the first byte |
| RingBuffer.LockFreeRingBuffer.Write | yogi-core/src/utils/ringbuffer.cc:152-186 | Appends as many of the bytes as are free |
| RingBuffer.LockFreeRingBuffer.Store | yogi-core/src/utils/ringbuffer.cc:164-182 | The copy in one or two pieces puts the data behind the write index, continuing at slot 0, and touches no other slot |
| RingBuffer.LockFreeRingBuffer.FirstReadArray | yogi-core/src/utils/ringbuffer.cc:135-144 | A contiguous piece holding the first bytes of the queue, as long as they are contiguous |
| RingBuffer.LockFreeRingBuffer.FirstWriteArray | yogi-core/src/utils/ringbuffer.cc:202-212 | The contiguous free piece behind the last byte |
| RingBuffer.LockFreeRingBuffer.CommitFirstReadArray | yogi-core/src/utils/ringbuffer.cc:121-133 | Removes the first n bytes of the piece |
| RingBuffer.LockFreeRingBuffer.CommitFirstWriteArray | yogi-core/src/utils/ringbuffer.cc:188-200 | Appends the first n bytes that were put into the piece |
| RingBuffer.LockFreeRingBuffer.PoppingIndex | yogi-core/src/utils/ringbuffer.h:56-60 | The index of PopUntil stands at the k-th byte, or at the write index after the last |
| RingBuffer.LockFreeRingBuffer.StoreReadIndex | yogi-core/src/utils/ringbuffer.h:62 | PopUntil removes exactly the bytes it has walked over |
| RingBuffer.LockFreeRingBuffer.Front | yogi-core/src/utils/ringbuffer.cc:41-44 | The first byte of a queue that is not empty |
| RingBuffer.LockFreeRingBuffer.Empty | yogi-core/src/utils/ringbuffer.cc:29-33 | Exactly if the queue holds nothing |
| RingBuffer.LockFreeRingBuffer.Full | yogi-core/src/utils/ringbuffer.cc:35-39 | Exactly if nothing more fits |
| RingBuffer.LockFreeRingBuffer.AvailableForRead | yogi-core/src/utils/ringbuffer.cc:56-60 | The number of bytes in the queue |
| RingBuffer.LockFreeRingBuffer.AvailableForWrite | yogi-core/src/utils/ringbuffer.cc:146-150 | The number of bytes that still fit |
| RingBuffer.ReadableAt | yogi-core/src/utils/ringbuffer.cc:214-221 | The read index advanced by the result, around the end, is the write index |
| RingBuffer.WritableAt | yogi-core/src/utils/ringbuffer.cc:223-231 | With the readable bytes it adds up to the capacity, although the unsigned subtraction wraps below zero |
| RingBuffer.ReadPieceAt | yogi-core/src/utils/ringbuffer.cc:135-144 | The readable bytes up to the end of the slots |
| RingBuffer.WritePieceAt | yogi-core/src/utils/ringbuffer.cc:202-212 | The writable bytes up to the end of the slots |
| RingBuffer.CircularAppend | yogi-core/src/utils/ringbuffer.cc:164-184 | Slots written behind the last byte extend the queue by the data |
| RingBuffer.CircularDrop | yogi-core/src/utils/ringbuffer.cc:73-93 | Advancing the read index drops bytes from the front |
| RingBuffer.FirstPiecesStable | yogi-core/src/utils/ringbuffer.cc:121-133 | A piece handed out to one side keeps its place and bytes while the other side advances |
| RingBuffer.FirstPiecesNonEmpty | yogi-core/src/utils/ringbuffer.cc:202-212 | A piece is empty only if there is nothing to transfer at all |
| SpscRing.ReadIsPrefix | yogi-core/src/utils/ringbuffer.cc:62-133 | In every interleaving of single loads, stores and byte copies, with stale indices, the consumer goes through the stream position by position: each byte read and released is the one written there, nothing is repeated and only Discard skips; without it the bytes read are a prefix of the bytes written |
| SpscRing.StepOnStreams | yogi-core/src/utils/ringbuffer.cc:62-200 | Each step does to the published and the released stream what it does to a bounded queue: a side that starts may go as far as there is room, or bytes, at that moment; what is published is what was copied, and what is released what was read |
| SpscRing.NobodyWaits | yogi-core/src/utils/ringbuffer.cc:62-200 | A side that has started can always go on and finish, whatever the other does |
| SpscRing.GiveUpKeepsInv | yogi-core/src/utils/ringbuffer.cc:93 | Storing the read index gives up exactly the slots of the bytes released |
| SpscRing.SlotsDisjoint | yogi-core/src/utils/ringbuffer.cc:152-186 | In every such state the slot being written differs from the slot being read, and both lie within the buffer |
| SpscRing.PiecesStayCommittable | yogi-core/src/utils/ringbuffer.cc:121-144 | A piece handed out before is still part of the piece that would be handed out now |
| SpscRing.Run | yogi-core/src/utils/ringbuffer.cc:46-200 | The queue invariant holds after every interleaving |
| SpscRing.RunGoesOn | yogi-core/src/utils/ringbuffer.cc:46-200 | A run takes every step that is possible |
| SpscRing.PutByteKeepsInv | yogi-core/src/utils/ringbuffer.cc:167-177 | Copying a byte in disturbs nothing the consumer may read |
| SpscRing.PublishKeepsInv | yogi-core/src/utils/ringbuffer.cc:184 | Storing the write index publishes exactly the bytes copied |
| SpscRing.GetByteKeepsInv | yogi-core/src/utils/ringbuffer.cc:78-86 | Copying a byte out gets the byte published at that position of the stream |
| SpscRing.Available | yogi-core/src/utils/ringbuffer.cc:214-231 | The index arithmetic counts the published bytes not yet released, and never more free slots than there are |
| SpscRing.AdvanceIndex | yogi-core/src/utils/ringbuffer.cc:233-240 | Advancing an index around the end is advancing a position of the unbounded stream |
| Variables.CircularIffCycle | yogi-core/src/objects/configuration.cc:120-142 | Resolution is refused exactly if some defined variables depend on each other in a circle, for every key order |
| Variables.NamedIsOnCycle | yogi-core/src/objects/configuration.cc:124-127 | The variable named in the error lies on a circle of dependencies |
| Variables.CycleSurvives | yogi-core/src/objects/configuration.cc:138-140 | Eliminating a variable neither hides nor makes a circle among the others |
| Variables.EliminateDepends | yogi-core/src/objects/configuration.cc:144-160 | After a round, a variable depends on what it depended on, or reached through the eliminated variable |
| Variables.ShortenWalk | yogi-core/src/objects/configuration.cc:132-142 | A chain of dependencies can be led around the eliminated variable |
| Variables.LengthenWalk | yogi-core/src/objects/configuration.cc:132-142 | And back through it |
| Variables.ResolveVariablesSections | yogi-core/src/objects/configuration.cc:132-142 | The loop computes the elimination in key order, refusing at the first variable that refers to itself |
| Variables.ResolveInAll | yogi-core/src/objects/configuration.cc:138-140 | The inner loop replaces the variable everywhere at once |
| Variables.ResolveSingleRefs | yogi-core/src/objects/configuration.cc:144-160 | What a resolved string refers to |
| Variables.ResolveSingleText | yogi-core/src/objects/configuration.cc:144-160 | The text of a resolved element is the substitution, whether or not the type was taken over |
| VariableExpansion.TextsAreExpansions | yogi-core/src/objects/configuration.cc:132-142 | The resolved texts are the one solution of the definitions: each is its definition with every reference expanded in full |
| VariableExpansion.OrderDoesNotMatter | yogi-core/src/objects/configuration.cc:132-142 | Whether resolution succeeds, and the texts it gives, do not depend on the key order |
| VariableExpansion.EliminateKeepsSolutions | yogi-core/src/objects/configuration.cc:138-140 | One round leaves the solutions of the definitions as they were |
| VariableExpansion.NoRefsLeft | yogi-core/src/objects/configuration.cc:132-142 | No reference to a defined variable is left |
| VariableExpansion.OtherRefsStay | yogi-core/src/objects/configuration.cc:144-160 | References to undefined variables neither appear nor vanish |
| VariableTypes.TypesRightIffNoCollapse | yogi-core/src/objects/configuration.cc:132-160 | For the order in which the keys are visited, exactly the aliases of numbers and truth values are resolved to them if and only if no other string comes down to the bare reference to such an alias by the time of that alias |
| VariableTypes.CollapseTypesWrong | yogi-core/src/objects/configuration.cc:152-159 | A string that does so is resolved to the number or truth value |
| VariableTypes.CreatedMeansCollapse | yogi-core/src/objects/configuration.cc:152-159 | An alias that a round creates is such a string |
| VariableTypes.AliasesSurvive | yogi-core/src/objects/configuration.cc:152-153 | No round loses an alias |
| VariableTypes.StageSolves | yogi-core/src/objects/configuration.cc:132-142 | Half way through, the texts of the variables visited are the one solution of their definitions |
| VariableTypes.StageExpands | yogi-core/src/objects/configuration.cc:132-142 | And every text is its definition with just these expanded |
| VariableTypes.CollapseExample | yogi-core/src/objects/configuration.cc:152-159 | A section whose result is a number in one key order and a string in another |
| DocumentResolution.ElementMeans | yogi-core/src/objects/configuration.cc:173-178 | An element that is a string takes over the value of the variable to which it is the bare reference at that variable's turn, and if there is none stays a string with everything expanded; other elements stay |
| DocumentResolution.TreeMeans | yogi-core/src/objects/configuration.cc:173-192 | Walking all elements does this to each of them and changes nothing else |
| DocumentResolution.RuleExactly | yogi-core/include/yogi_core.h:416-423 | The documented rule, that the type changes if and only if the placeholder stands alone, holds for an element exactly if it does not collapse: no string of more than one reference is the bare reference to a number or truth value at the turn of that variable |
| DocumentResolution.TreeRuleExactly | yogi-core/include/yogi_core.h:416-423 | And for a document exactly if none of its elements collapses |
| DocumentResolution.DocumentCollapseExample | yogi-core/src/objects/configuration.cc:173-178 | An element that becomes a number in one key order and stays a string in another |
| DocumentResolution.TreeIsExpanded | yogi-core/src/objects/configuration.cc:173-178 | Walking all elements expands every text |
| DocumentResolution.BareReferenceTakesValue | yogi-core/src/objects/configuration.cc:152-153 | A string that is one bare reference takes over the value of the variable, type included |
| TextualResolution.EliminateAllAgrees | yogi-core/src/objects/configuration.cc:120-160 | For tidy strings: resolving the strings of a section with find and replace_all, round by round, is resolving its references and writing out the result, errors included |
| TextualResolution.ResolveAgrees | yogi-core/src/objects/configuration.cc:162-215 | So it is for the elements of a document, and finding "${" in the result is having a reference left |
| TextualResolution.SingleAgrees | yogi-core/src/objects/configuration.cc:144-160 | So it is for one replacement, which keeps strings well formed |
| TextualResolution.StrayDollarExample | yogi-core/src/objects/configuration.cc:155-158 | With a stray dollar sign it need not be so: replacing a variable by one creates a reference that was not there |
| TextualConfiguration.AcceptedTextExactly | yogi-core/src/objects/configuration.cc:217-230 | On strings: a tidy document passes the checks exactly if, read as tokens, it is acceptable; its resolved dump then has "${" in no string, and read as tokens it is the document that Configuration.ResolvedExactly describes |
| TextualConfiguration.VerifyTextAgrees | yogi-core/src/objects/configuration.cc:217-230 | Checking the strings of a tidy document with find and replace_all gives the outcome, errors included, of checking its tokens |
| TextualConfiguration.ResolveTextAgrees | yogi-core/src/objects/configuration.cc:162-181 | Resolving the strings of a tidy document is resolving its tokens and writing out the result |
| TextualConfiguration.MergedTextAgrees | yogi-core/src/objects/configuration.cc:217-230 | VerifyAndMerge on strings accepts exactly if merging the documents read as tokens gives an acceptable document |
| TextualConfiguration.UnresolvableIsRefused | yogi-core/src/objects/configuration.cc:203-215 | A document, tidy or not, with a string that opens a reference but holds none to a defined variable, for example an unterminated one, is refused |
| TextualConfiguration.NothingOpenExactly | yogi-core/src/objects/configuration.cc:203-215 | On strings the check of the values accepts exactly if no string at any path contains "${" |
| TextualConfiguration.MergeIsRead | yogi-core/src/objects/configuration.cc:219-221 | Merging documents of strings and reading the result is merging the documents as read |
| TextualConfiguration.ReadThenWrite | yogi-core/src/objects/configuration.cc:151-158 | Every document of strings, read as tokens and written out, comes back |
| TextualConfiguration.WriteThenRead | yogi-core/src/objects/configuration.cc:151-158 | Every well-formed document of tokens, written out and read, comes back |
| VariableText.ReplaceIsSubst | yogi-core/src/objects/configuration.cc:155-158 | Replacing the text of a reference in a string is substituting for the reference |
| VariableText.OccursIsHasRef | yogi-core/src/objects/configuration.cc:120-130 | Finding the text of a reference is having the reference |
| VariableText.OpeningIsHasRef | yogi-core/src/objects/configuration.cc:203-215 | Finding "${" is having any reference |
| VariableText.EqualIsSingleRef | yogi-core/src/objects/configuration.cc:152 | A string equal to the text of a reference is that reference alone |
| VariableText.OccursExactly | yogi-core/src/objects/configuration.cc:124 | Finding a string is containing it at some position |
| VariableText.TokensRender | yogi-core/src/objects/configuration.cc:151-158 | Every string, read as references and single characters and written out, comes back |
| VariableText.RenderTokens | yogi-core/src/objects/configuration.cc:151-158 | A well-formed text, written out and read, comes back |
| Configuration.AcceptedExactly | yogi-core/src/objects/configuration.cc:217-230 | A merged document passes the checks exactly if its keys have no reference syntax, its variables section, if any, is an object without circular dependencies, and every reference is to a variable defined there |
| Configuration.RefusedExactly | yogi-core/src/objects/configuration.cc:120-230 | Which error a refused document gets, whatever the key order: reference syntax in a key, then a variables section that is no object, then a circular dependency, then an undefined variable |
| Configuration.KeysPlainExactly | yogi-core/src/objects/configuration.cc:194-201 | The check of the keys accepts exactly if no key on any path through the document contains "${" |
| Configuration.FullyResolvedExactly | yogi-core/src/objects/configuration.cc:203-215 | The check of the values accepts exactly if no string at any path holds a reference |
| Configuration.RefersOnlyToExactly | yogi-core/src/objects/configuration.cc:183-192 | Walking all elements meets every value at every path |
| Configuration.SectionExactly | yogi-core/src/objects/configuration.cc:165-171 | The variables are the values that stand directly in the object called variables |
| Configuration.ResolvedIsExpanded | yogi-core/src/objects/configuration.cc:162-181 | Resolving an accepted document succeeds, leaves no reference, replaces every text by its full expansion, puts the resolved section in place, gives every other element exactly the value it means, type included, and changes nothing else |
| Configuration.ResolvedMeans | yogi-core/src/objects/configuration.cc:162-181 | The same for values, whenever resolving succeeds |
| Configuration.TypesAsPromisedExactly | yogi-core/include/yogi_core.h:416-423 | The documented rule about types holds for a resolved document exactly if neither a variable nor another element collapses in the order in which the keys are visited |
| Configuration.TreeResolved | yogi-core/src/objects/configuration.cc:203-215 | A document that refers to defined variables only has no reference left after the walk |
| Configuration.TreeWasClosed | yogi-core/src/objects/configuration.cc:203-215 | And only such a document |
| Configuration.Configuration.constructor | yogi-core/src/objects/configuration.cc:28-32 | An empty document and the chosen flags |
| Configuration.Configuration.VerifyAndMerge | yogi-core/src/objects/configuration.cc:217-230 | Stores the merged document exactly if it is acceptable, and otherwise changes nothing; merging the immutable part again would change nothing |
| Configuration.Configuration.UpdateFromString | yogi-core/src/objects/configuration.cc:47-58 | Keeps the class invariant: the document is an object without nulls, has absorbed the immutable part, and can be resolved; a refused update leaves it as it was |
| Configuration.Configuration.UpdateFromCommandLine | yogi-core/src/objects/configuration.cc:34-45 | The same, and what was given directly becomes immutable unless that was switched off or the update was refused |
| Configuration.Configuration.Dump | yogi-core/src/objects/configuration.cc:78-89 | A resolved dump never fails, leaves no reference, expands every text and gives every element exactly the value it means |
| Immutability.ImmutableStays | yogi-core/include/yogi_core.h:424-429 | A value in the document survives every sequence of later updates from strings and files that the checks let through exactly if the immutable part puts it there |
| Immutability.Overwrite | yogi-core/src/objects/configuration.cc:47-58 | Every other value is overwritten by some update that passes the checks |
| Immutability.FirstCommandLineLostIsAccepted | yogi-core/src/objects/configuration.cc:34-58 | The run in which the first command line is lost passes the checks |
| Updates.ImmutableIsLast | yogi-core/src/objects/configuration.cc:42-44 | After any updates, immutable is exactly the direct part of the last accepted command line: a further command line lifts the protection of earlier ones |
| Updates.LastCommandLineStands | yogi-core/src/objects/configuration.cc:34-58 | The values of that direct part stand in the document whatever was accepted or refused since |
| Updates.CommandLineValues | yogi-core/src/objects/configuration.cc:34-45 | What a command line does to the value at a path: its direct part decides, then its files, and what neither decides about stays |
| Updates.FirstCommandLineLost | yogi-core/src/objects/configuration.cc:42-44 | A run in which a value given on a first command line is overwritten after a second one |
| Updates.RunKeepsAbsorbed | yogi-core/src/objects/configuration.cc:217-230 | After any updates merging the immutable part once more changes nothing |
| Json.MergeIsIdempotent | yogi-core/src/objects/configuration.cc:219-221 | Merging the same patch again changes nothing (section 2 of RFC 7396) |
| Json.MergedValues | yogi-core/src/objects/configuration.cc:219-221 | After merging, a value stands at a path exactly if the patch puts it there or, where the patch does not decide, if it stood there before |
| Json.AbsorbedValues | yogi-core/src/objects/configuration.cc:219-221 | A document that a patch no longer changes has all of the values of the patch |
| Json.MergeIsNullFree | yogi-core/src/objects/configuration.cc:219-221 | Merging leaves no nulls |
| SignalSet.CleanupOnlyOnceAtTheEnd | yogi-core/src/objects/signal_set.cc:24-45 | The cleanup handler runs at most once, and only when no set is still to be notified, no queue holds the signal and no delivery of it is posted |
| SignalSet.AllCleanedAtRest | yogi-core/src/objects/signal_set.cc:108-114 | When nothing holds the signal any more, it has run |
| SignalSet.HandlerCalledOnce | yogi-core/src/objects/signal_set.cc:50-69 | An awaited handler is called at most once, with the signal or a cancellation, and has been called when it neither waits nor is posted |
| SignalSet.EveryNotificationIsHandled | yogi-core/src/objects/signal_set.cc:24-115 | Once nothing holds a signal any more, and if no set was destroyed, as many handlers have been called with it as sets were notified of it |
| SignalSet.DeliversInOrder | yogi-core/src/objects/signal_set.cc:87-115 | In every reachable state no set has both a waiting handler and a queued signal, and deliveries are posted in the order in which the set was notified |
| SignalSet.AwaitAnswers | yogi-core/src/objects/signal_set.cc:50-69 | AwaitAsync cancels the handler that waits, hands the first queued signal to the new one, and lets it wait if there is none |
| SignalSet.CancelAwaitAnswers | yogi-core/src/objects/signal_set.cc:85 | CancelAwait cancels the handler that waits and does nothing else |
| SignalSet.RaiseAnswers | yogi-core/src/objects/signal_set.cc:24-40 | RaiseSignal counts the sets it is going to notify and cleans up at once if there are none |
| SignalSet.NotifyAnswers | yogi-core/src/objects/signal_set.cc:87-106 | A notified set hands the signal to the handler that waits and otherwise queues it behind the others |
| SignalSet.RunPostedAnswers | yogi-core/src/objects/signal_set.cc:108-114 | A posted callback calls its handler; a delivery then counts down and the last one cleans up |
| SignalSet.DestroyAnswers | yogi-core/src/objects/signal_set.cc:71-83 | A destroyed set lets go of every queued signal, posting nothing but cleanups, then cancels the handler that waits, and is gone |
| SignalOrder.RaisedInOrderExactly | yogi-core/src/objects/signal_set.cc:24-45 | A signal is raised while another may still be on its way: in every continuation every set is notified of the two in the order in which they were raised, if and only if no set still to be notified of the first wants the second |
| SignalOrder.RaiseOrder | yogi-core/src/objects/signal_set.cc:24-45 | A set that one RaiseSignal has notified, or does not want to notify, in particular any set when that call is done, never gets its signal after one raised from then on, in any run |
| SignalOrder.NotifyUntil | yogi-core/src/objects/signal_set.cc:42-44 | A RaiseSignal in progress can go on until it has notified a given one of its sets, with nothing else happening |
| SignalOrder.HandledInOrder | yogi-core/src/objects/signal_set.cc:104-114 | If posted deliveries of a set run first-in-first-out, its handlers are called with signals in the order in which the set was notified of them, leaving none out; with all of them once nothing is posted or queued |
| SignalOrder.NextHandled | yogi-core/src/objects/signal_set.cc:87-115 | Every step keeps the deliveries of a set, called and posted, equal to what it dispatched |
| SignalOrder.OverlappingRaises | yogi-core/src/objects/signal_set.cc:42-44 | When two calls overlap, a set can be notified of the later one first |
| SignalOrder.AlwaysNotifiedOnce | yogi-core/src/objects/signal_set.cc:33-44 | In every reachable state each set has been notified of a signal at most once, and only of signals it wants |
| SignalOrder.TargetsAreReached | yogi-core/src/objects/signal_set.cc:42-44 | Every set that a RaiseSignal found has been notified once the call is done, whatever happens meanwhile |
| SignalSet.NotifyAllReaches | yogi-core/src/objects/signal_set.cc:42-44 | A RaiseSignal notifies each matching set once and no other |
| SignalSet.RaiseKeepsInv | yogi-core/src/objects/signal_set.cc:24-40 | Raising keeps the invariant: the count is the sets to be notified plus the queues plus the posted deliveries that hold the signal |
| SignalSet.NotifyKeepsInv | yogi-core/src/objects/signal_set.cc:87-115 | So does the notification of one set, with other steps in between |
| SignalSet.AwaitAsyncKeepsInv | yogi-core/src/objects/signal_set.cc:50-69 | So does AwaitAsync |
| SignalSet.CancelAwaitKeepsInv | yogi-core/src/objects/signal_set.cc:85 | So does CancelAwait, which only takes the handler away |
| SignalSet.RunPostedKeepsInv | yogi-core/src/objects/signal_set.cc:108-114 | So does running any posted callback |
| SignalSet.DestroyKeepsInv | yogi-core/src/objects/signal_set.cc:71-83 | So does destroying a set with signals in its queue |
| SignalSet.DropAllCounts | yogi-core/src/objects/signal_set.cc:72-80 | The destructor's loop empties the queue and accounts for every signal dropped |
| SignalSet.Run | yogi-core/src/objects/signal_set.cc:24-115 | The invariant holds after every sequence of steps |
| SignalSet.SignalSets.constructor | yogi-core/src/objects/signal_set.cc:24-45 | No sets, no signals |
| SignalSet.SignalSets.Create | yogi-core/src/objects/signal_set.cc:47-48 | A new set with the given signals |
| SignalSet.SignalSets.RaiseSignal | yogi-core/src/objects/signal_set.cc:24-45 | Counts the matching sets, cleans up at once if there are none, and notifies each |
| SignalSet.SignalSets.OnSignalRaised | yogi-core/src/objects/signal_set.cc:87-93 | Queues the signal and delivers the next one if a handler waits |
| SignalSet.SignalSets.DeliverNextSignal | yogi-core/src/objects/signal_set.cc:95-115 | Takes handler and first signal away and posts the delivery, if there is a handler |
| SignalSet.SignalSets.AwaitAsync | yogi-core/src/objects/signal_set.cc:50-69 | Replaces the handler, posts the cancellation of the old one, and delivers a queued signal |
| SignalSet.SignalSets.CancelAwait | yogi-core/src/objects/signal_set.cc:85 | The same with no new handler |
| SignalSet.SignalSets.Destroy | yogi-core/src/objects/signal_set.cc:71-83 | The loop drops all queued signals and the handler is cancelled |
| SignalSet.SignalSets.RunPosted | yogi-core/src/objects/signal_set.cc:108-114 | Calls the handler, counts down, and cleans up after the last |
| ObjectRegister.ObjectRegister.DestroyAll | yogi-core/src/api/object.cc:101-123 | The loop ends; what stays alive is exactly the largest group of objects each held from outside or by another one of the group, and what is left in the map are the registered ones among them |
| ObjectRegister.ObjectRegister.Sweep | yogi-core/src/api/object.cc:113-119 | One pass, in any order, erases only objects nothing else points to; if it erases none, none is left to erase |
| ObjectRegister.ObjectRegister.Destroy | yogi-core/src/api/object.cc:83-99 | Fails for an unknown handle and for an object that anything else points to; otherwise destroys it and exactly what only it kept alive |
| ObjectRegister.ObjectRegister.Register | yogi-core/src/api/object.cc:73-81 | Adds the object |
| ObjectRegister.ObjectRegister.Get | yogi-core/src/api/object.h:54-107 | Succeeds exactly for a registered object of the type asked for, which is alive then, and otherwise says whether handle or type is wrong |
| ObjectRegister.ObjectRegister.Unique | yogi-core/src/api/object.cc:93 | Exactly if no pointer from outside and no live object points to it |
| ObjectRegister.ObjectRegister.Collect | yogi-core/src/api/object.cc:115 | Losing pointers destroys exactly what nothing keeps alive any more, in a cascade |
| ObjectRegister.ObjectRegister.Create | yogi-core/src/api/object.h:82-85 | A new object, alive and held by its creator |
| ObjectRegister.SurvivorsAreReached | yogi-core/src/api/object.cc:109-120 | An object survives DestroyAll exactly if a held object, or one on a cycle of pointers, leads to it |
| ObjectRegister.AcyclicSurvivors | yogi-core/src/api/object.cc:109-120 | Without cycles, exactly if it can be reached from a held object |
| ObjectRegister.EmptyExactly | yogi-core/src/api/object.cc:122 | The final assertion that the map is empty holds exactly if no pointer from outside, and no cycle of pointers, leads to a registered object |
| ObjectRegister.EmptyIfAllRegistered | yogi-core/src/api/object.cc:122 | If all objects are registered, it holds exactly if nothing is held and there is no cycle |
| ObjectRegister.SurvivorsAreGreatest | yogi-core/src/api/object.cc:109-120 | The survivors keep each other alive and include every group that does |
| ObjectRegister.SurvivorsAreClosed | yogi-core/src/api/object.cc:93-95 | No live object is left with a pointer to a destroyed one |
| ObjectRegister.RemoveUnsupported | yogi-core/src/api/object.cc:114-115 | Erasing an object nothing points to does not change who survives, so the order of erasing does not matter |
| Serialize.RoundTrip | yogi-core/src/network/serialize.h:57-213 | A list of fields followed by anything is read back as it was exactly if no string contains a NUL and no size is 2^32 or more, and the iterator is left exactly at what follows |
| Serialize.FieldComesBack | yogi-core/src/network/serialize.h:57-213 | The same for one field |
| Serialize.OnTheWire | yogi-core/src/network/serialize.h:69-199 | What each type looks like on the wire: width, two's complement, 32-bit sizes, one byte for a truth value, a NUL after a string |
| Serialize.TruthIsNotZero | yogi-core/src/network/serialize.h:76-86 | Any byte but 0 is read as true |
| Serialize.AcceptedIsWritten | yogi-core/src/network/serialize.h:62-213 | What is accepted re-serializes to the very bytes that were read, except that any non-zero byte is a true |
| Serialize.CutShort | yogi-core/src/network/serialize.h:40-53 | A list of fields the format can carry is not accepted when it is cut short anywhere |
| Serialize.ValueOfBigEndian | yogi-core/src/network/serialize.h:33-53 | Reading a big-endian number gives the number written |
| Serialize.BigEndianOfValue | yogi-core/src/network/serialize.h:33-53 | Writing the number read gives the bytes |
| Serialize.BigEndianAt | yogi-core/src/network/serialize.h:33-38 | The most significant byte comes first |
| Serialize.SignedModulo | yogi-core/src/network/serialize.h:103-114 | Two's complement gives back negative numbers |
| Serialize.ByteVector.SerializeInteger | yogi-core/src/network/serialize.h:33-38 | Appends the big-endian bytes |
| Serialize.ByteVector.Serialize | yogi-core/src/network/serialize.h:69-199 | Appends the bytes of the field |
| Serialize.ByteVector.SerializeAll | yogi-core/src/objects/detail/branch/branch_info.cc:114-123 | Appends the bytes of all fields in order |
| Serialize.Reader.DeserializeInteger | yogi-core/src/network/serialize.h:40-53 | Fails without moving the iterator if bytes are missing, otherwise reads the number and moves past it |
| Serialize.Reader.Deserialize | yogi-core/src/network/serialize.h:62-213 | Reads the field the bytes stand for, or fails without moving the iterator |
| Serialize.Reader.DeserializeText | yogi-core/src/network/serialize.h:181-192 | Reads up to the first NUL and moves past it |
| Serialize.Reader.FindTerminator | yogi-core/src/network/serialize.h:184 | The position of the first NUL |
| Serialize.Reader.DeserializeAll | yogi-core/src/objects/detail/branch/branch_info.cc:165-174 | Reads the fields in order up to the first that fails |
| BranchMessages.PopulateMessages | yogi-core/src/objects/detail/branch/branch_info.cc:101-128 | Builds the advertising and the info message |
| BranchMessages.InfoMessageArrives | yogi-core/src/objects/detail/branch/branch_info.cc:153-177 | A branch is received from its info message, whatever follows it, exactly as it was sent if and only if none of its strings contains a NUL |
| BranchMessages.InfoMessageLayout | yogi-core/src/objects/detail/branch/branch_info.cc:101-128 | The info message byte by byte: prefix, version, UUID, port, body size, and the ten fields of the body in their order |
| BranchMessages.RefusedByItsStart | yogi-core/src/objects/detail/branch/branch_info.cc:211-224 | A message is refused for its prefix exactly if the first five bytes are not "YOGI" and a NUL, and for its version exactly if those are right and the next two are not the version |
| BranchMessages.BodySizeArrives | yogi-core/src/objects/detail/branch/branch_info.cc:196-209 | The receiver accepts the header, and learns the body size exactly if it is below 2^32 |
| BranchMessages.OtherVersionIsRejected | yogi-core/src/objects/detail/branch/branch_info.cc:211-224 | A message of another version is rejected as incompatible |
| BranchMessages.Pieces | yogi-core/src/objects/detail/branch/branch_info.cc:101-128 | The parts of an info message are where the receiver looks for them |
| Transport.RunIsRight | yogi-core/src/network/transport.cc:132-167 | Success is reported only when everything has been transferred, and what has been transferred only grows |
| Transport.RunEnded | yogi-core/src/network/transport.cc:138-145 | Nothing happens after the handler has been called |
| Transport.FirstFailureDecides | yogi-core/src/network/transport.cc:51-69 | The handler is given an error exactly if that is the first failure and bytes were still missing before it: cancelled if the transport is gone, else the timeout if there was one, else the transport's own error |
| Transport.TimeoutEnds | yogi-core/src/network/transport.cc:60-61 | A transfer still in progress when the timeout strikes ends with it at its next answer, even one that brings the last bytes, and stays so |
| Transport.EndsInTime | yogi-core/src/network/transport.cc:132-146 | Without a failure it takes at most as many transfers as there are bytes |
| Exchange.ReceivedIsSent | yogi-core/src/network/transport.cc:132-167 | With both sides joined by a byte stream, in every interleaving of partial transfers, errors and timeouts, what is received is a beginning of what was sent, and a receive that succeeds has filled its buffer with the first bytes of the data: all of it if the sizes agree |
| Exchange.BothEnd | yogi-core/src/network/transport.cc:132-167 | Without trouble, whichever way the sides take turns and however little they transfer, both end with success after at most as many transfers as there are bytes |
| Exchange.NotStuck | yogi-core/src/network/transport.cc:132-167 | As long as a side has not ended one of them can go on |
| Exchange.SidesAct | yogi-core/src/network/transport.cc:51-118 | The side that is answered has moved the next bytes of the data and ends with the trouble there was, or when it has everything |
| Transport.Transport.constructor | yogi-core/src/network/transport.cc:24-36 | Nothing in progress, not timed out |
| Transport.Transport.SendAllAsync | yogi-core/src/network/transport.cc:72-75 | Starts with everything still to be sent |
| Transport.Transport.SendAllAsyncImpl | yogi-core/src/network/transport.cc:132-146 | Goes on with the rest after a partial success, and otherwise ends |
| Transport.Transport.SendSomeAsync | yogi-core/src/network/transport.cc:40-46 | Asks for no more than the byte limit |
| Transport.Transport.OnWritten | yogi-core/src/network/transport.cc:51-69 | What has been sent so far is exactly the beginning of the data; the handler gets the cancellation if the transport is gone, else the timeout, else the error, else success exactly if everything has been sent |
| Transport.Transport.ReceiveAllAsync | yogi-core/src/network/transport.cc:121-124 | Starts with the whole buffer still to be filled |
| Transport.Transport.ReceiveAllAsyncImpl | yogi-core/src/network/transport.cc:153-167 | Goes on behind the bytes read after a partial success, and otherwise ends |
| Transport.Transport.ReceiveSomeAsync | yogi-core/src/network/transport.cc:89-95 | Asks for no more than the byte limit |
| Transport.Transport.OnRead | yogi-core/src/network/transport.cc:100-118 | The start of the buffer is exactly what has been read so far; the handler gets the cancellation if the transport is gone, else the timeout, else the error, else success exactly if the buffer is full |
| Transport.Transport.Answered | yogi-core/src/network/transport.cc:51-69 | A transport that is gone, a timeout and an error are reported in this order of preference; only the last one closes it here |
| Transport.Transport.OnTimeout | yogi-core/src/network/transport.cc:182-186 | Latches the timeout and closes the transport |

## Left out

- Sockets, timers, connecting and accepting (`tcp_transport.cc`) and boost::asio: the transport below is any sequence of completions with the bytes it may deliver, or errors.
- C++ memory orders: loads and stores of the ring's indices are sequentially consistent steps.
- Logging, error texts and the running of contexts: nothing modelled depends on them. Closing a transport is recorded; what it does to the socket is left out.
- Weak pointers to a destroyed message transport: its completions do nothing, so the model just has no such step.
- Threads inside one message transport: the sending methods hold a mutex for their whole bodies and the receiving ones are called from one context, so each is one step.
- Writing error codes: a transport error is a number; the error classes of the source that the modelled code does not distinguish are one constructor.
- Bit operations are arithmetic on unbounded numbers; the only place where 64-bit wrap-around shows, the subtraction in `AvailableForWrite`, is written out.
- MessageTransport.MessageTransport.TrySend: requires that the frame fits an empty ring, as the assertion in `CanSend` demands of callers; so do `SendAsync` and the events of `SendSide`.
- MessageTransport.MessageTransport.ReceiveAsync: the caller's buffer is an array other than the transport's own; a rejected call leaves it as the pending buffer, which nothing reads then.
- MessageTransport.MessageTransport.HandleSendError: records the handler calls; handlers that call back into the transport from there, under its mutex, are not modelled.
- RingBuffer.LockFreeRingBuffer.Write: the input is a sequence rather than a pointer with a size.
- Configuration.Configuration.VerifyAndMerge: documents have objects and scalars but no arrays, because the source asks for the key of every child, which its JSON library defines for objects only; and variables are not objects themselves, because such a variable is replaced by its printed form inside a longer string, and printing JSON is not modelled. The order in which the keys of the variables section are visited is a parameter, any order being allowed.
- Configuration.Configuration.UpdateFromString: parsing is a parameter; `UpdateFromFile` is the same with another error code, and `WriteToFile` writes what `Dump` returns.
- VariableText.ReplaceIsSubst: for strings in which every dollar sign begins a reference or is followed by an ordinary character other than an opening brace, and names without closing brace; for others the rounds can create references, as `TextualResolution.StrayDollarExample` shows. A document with a string that opens a reference but holds none to a defined variable is refused whatever its other strings are (`TextualConfiguration.UnresolvableIsRefused`).
- TextualConfiguration.ResolveTextAgrees: the walk over a document reads the values of the variables as they were before the walk, while the source reads them in place; for a tidy document the walk does not change them (`Configuration.SectionStays`).
- JSON numbers are their dumped text; parsing and printing JSON, the command line parser and files are not modelled.
- SignalSet.SignalSets.RaiseSignal: the matching sets are a parameter, any listing of exactly the matching live sets; the method runs without interruption, while `SignalSet.Run` lets other steps come between the notifications. A posted callback is one step, and a set is not destroyed while a RaiseSignal still holds it.
- Signal arguments and what handlers do: a signal is known by its number.
- ObjectRegister.ObjectRegister.Register: adds to a set; the assertion that the handle is new is not required.
- ObjectRegister.ObjectRegister.Collect: destroys in any order, where the source's destructors run depth first; that the order makes no difference is `ObjectRegister.RemoveUnsupported`. Several pointers from one object to another count as one.
- Serialize.Reader.Deserialize: returns the value instead of writing it through a pointer; a failing call leaves the target of the source alone.
- BranchMessages.InfoMessageArrives: the version is a parameter, and what the socket and the configuration contribute to a branch is left out.
- Transport.Transport.OnWritten: one SendAll and one ReceiveAll at a time; the callback of a transport that is gone is modelled by its result only.
- Branch discovery, authentication, broadcasts, timers, the console and the language bindings.
- Durations and timestamps other than as numbers of nanoseconds.
