# Proofs about a WebSocket library

The repository is a WebSocket (RFC 6455) library in Go. This project models its stateful core in
Dafny and proves what that core is relied on for:

- **The array-backed deque** (`internal/deque.go`): a doubly linked list inside a growable slice,
  with slot reuse. Every public method of class `Deques.Deque` is proved equal to one operation on
  a list of (address, value) items plus a free stack (`DequeModel.Apply`); `DequeRuns` then proves,
  over every run, that this list behaves as a linked list whose cells have identities of their own,
  that addresses are stable, that live and free slots partition the slice, and that the slice is
  never longer than the peak number of live elements requires.
- **Frames** (`types.go`, `writer.go`, `reader.go`, `internal/utils.go`, `internal/io.go`): the
  in-place header writer and parser, word-wise masking, genFrame's back-filled header, and the
  reader that reassembles fragments with control frames in between. `RoundTrips` proves the
  end-to-end round trip. `Conformance` states the rules of section 5 of RFC 6455 about a list of
  frames with lengths in any form, independently of the reader's state, and proves that the reader
  accepts exactly the streams that keep them, and otherwise stops with the error of the first rule
  broken; every byte stream whatever is split into such frames and the point where it stops.
  `FrameHeaders.HeaderLayout`, `FrameWriters.BuiltBytes`, `Refusals` and `Utf8` say the same of the
  bits and bytes themselves, with the numbers of the RFC written out: what is put where in a frame,
  which frames are refused with which code, and which bytes are text.
  `Sessions` joins the sending half of a connection, with its errors, its closing and a network
  that may break at any byte, to the peer's ReadLoop. `SessionCodes` says which code and reason
  each kind of closing sends, and what the peer is told.
- **Concurrent protocols**, as atomic steps that interleave in any order: the bounded worker queue
  and the bounded dispatch of messages (`task.go`), the biased reference count of a broadcast
  (`writer.go`), and closing (`conn.go`, `writer.go`): one compare-and-swap, one stored error, a write mutex. `CloseHistory`
  relates whole schedules to their outcome: what is on the wire, how each write ended, and that the
  connection is closed exactly when a write failed or someone closed it.
- **The buffer pool** (`internal/pool.go`): its bit-smearing arithmetic, its size classes, and who
  owns which buffer across readers, writers, broadcasts and messages.
- **The sharded map** (`session_storage.go`), against one map.

Bytes are 8-bit vectors and 32- and 64-bit words are bit vectors wherever the code shifts, masks or
wraps; `Bits.Val` reads a word as a number. Code that changes fields or slices is a class or a
method with loops, proved against a function; code that computes is functions.

## What turned out to have conditions

For each of these the exact condition is proved, and for those marked * a concrete input or
schedule in which it fails.

- `BufferPool.Get(n)` promises at least n bytes (internal/pool.go:46-47). Above 2^31 it keeps that
  only if no shard answers: the rounding looks at the low 32 bits of n alone, and takes those above
  2^31 to 0 (`BufferPools.CapacitySufficesIff`).
- The reader slices its buffer to the announced length, a Go run-time panic when that is out of
  range. `Readers.OutOfRangeIff` says for which streams: those whose next header passes every
  earlier check and announces a length that is negative as an `int` (the top bit that section 5.2
  of RFC 6455 forbids) or beyond 2^31 while a shard answers *. The model reports `OutOfRange`.
- The doubling loop of `ToBinaryNumber` ends if and only if its argument is at most half the range
  of its unsigned type (`PowersOfTwo.DoublingStopsIff`).
- `Writev` does what `WriteMessage` does with the concatenation unless that is checked, valid text
  and a slice boundary cuts a character (`FrameWriters.WritevActsAsWriteIff`) *.
- A close reason longer than 123 bytes is cut, so a valid reason arrives invalid exactly when
  byte 123 continues a character (`CloseCodes.CloseReasonArrivesValidIff`) *.
- `WritePing` and `WritePong` document a limit of 125 bytes (writer.go:42-54) that the sending side
  does not check. Between compatible peers a longer one is the only frame that arrives and is not
  read, and the only one that, torn behind its header, is more than a short read
  (`Sessions.SessionRoundTrip`).
- `Broadcaster.writeFrame` tests `IsClosed` outside the mutex, so its frame can follow the close
  frame: exactly when its goroutine is past that test and the connection is not disconnected yet
  (`CloseProtocol.BroadcastAfterCloseIff`) *. Data, ping and pong frames of `doWrite` cannot.
- A broadcast's frame is the one another connection would have sent itself only if that has the
  role of the first connection and does not refuse the payload (`FrameWriters.BroadcastFitsIff`).
- A `Broadcast` made after `Close` can write a frame that is back in the pool, or put it back twice,
  exactly when a shard has the frame's capacity, and the frame had been built or `Close` has found
  the count zero and not yet looked for the frame (`Broadcasters.LateBroadcastIff`) *. Frames above
  the largest shard never enter the pool (`BufferPools.PooledIff`).
- Starting one more `Message.Close` lets the `Close` calls under way return the buffer to the pool
  once too often exactly when the message still points to it, another `Close` has loaded that
  pointer and not cleared it, and a shard has its capacity (`MessageClosing.SecondCloseIff`) *.
  The other need only have loaded it: the whole second `Close` may run in between.
- `OnClose` is given no error for a closed connection exactly when `ReadLoop` loads `ev` before the
  goroutine that won the compare-and-swap stores it (`CloseProtocol.OnCloseSeesNothingIff`) *.
- A worker queue whose limit is not positive never starts a job (`Schedulers.NoSlotsNoWork`).

## Model

| member | source | states |
|---|---|---|
| DequeModel.NextAddrFresh | internal/deque.go:84-101 | the address handed out next is a slot number in range that no live element has |
| DequeModel.ApplyWf | internal/deque.go:84-121 | every operation on live addresses keeps the slots in order: live and free slots are distinct, never both, and together as many as the slice holds beyond slot 0 |
| DequeModel.ApplyMeans | internal/deque.go:142-301 | what each operation leaves of the list, as the items before, at and behind the position it is given |
| DequeModel.LastFreedIsReused | internal/deque.go:84-106 | the slot freed last is the next one handed out; the slice grows only when none is free |
| DequeModel.UpToFirstFalseStep | internal/deque.go:334-340 | one turn of Range's loop: the items up to the first false, from one element and from the next |
| DequeModel.UpToFirstFalseMeans | internal/deque.go:334-340 | what Range visits is a prefix on which f is true but for its last item, where it is false unless everything was visited |
| Deques.ChainVisitsOnce | internal/deque.go:334-340 | following next from the head never meets an address twice, which is what makes every walk stop |
| Deques.LinkedUnlinked | internal/deque.go:303-330 | bridging over an element leaves the chain of the others, in order, forwards and backwards |
| Deques.LinkedSpliced | internal/deque.go:216-261 | linking a new element between two neighbours gives the chain with it at that place |
| Deques.ReleasedThreaded | internal/deque.go:293-330 | unlinking and then clearing the slot leaves the list without that item and the slot blank on the stack |
| Deques.Deque.Zero | internal/deque.go:16-34 | the zero deque is valid and empty and has not even the nil slot |
| Deques.Deque.New | internal/deque.go:69-71 | a new deque is valid and empty and has only the nil slot |
| Deques.Deque.GetElement | internal/deque.go:84-101 | takes the top of the stack, or a new slot, leaves the list alone, and yields a slot outside it |
| Deques.Deque.TakeSlot | internal/deque.go:84-101 | the exact slice and stack after taking a slot, also from a slice without a nil slot |
| Deques.Deque.PutElement | internal/deque.go:103-106 | the slot is blank and on top of the stack |
| Deques.Deque.AutoReset | internal/deque.go:116-120 | only the nil slot is left and the stack is empty |
| Deques.Deque.DoPushFront | internal/deque.go:149-161 | a loose slot becomes the first item; the rest keep their order |
| Deques.Deque.DoPushBack | internal/deque.go:172-184 | a loose slot becomes the last item; the rest keep their order |
| Deques.Deque.DoRemove | internal/deque.go:303-330 | the neighbours, head and tail after unlinking, in all four cases |
| Deques.Deque.Detach | internal/deque.go:195-208 | removal, release of the slot and, when that emptied the deque, the reset, together are one removal of the model |
| Deques.Deque.Loosen | internal/deque.go:267-268 | the first half of a move: the element is out of the chain, keeps its value, and its slot is not freed |
| Deques.Deque.PushFront | internal/deque.go:142-147 | the new item is first; its address is the one the model hands out |
| Deques.Deque.PushBack | internal/deque.go:165-170 | the new item is last; its address is the one the model hands out |
| Deques.Deque.PopFront | internal/deque.go:188-198 | the first item is removed and its value returned; an empty deque returns the zero value unchanged |
| Deques.Deque.PopBack | internal/deque.go:202-212 | the last item is removed and its value returned; an empty deque returns the zero value unchanged |
| Deques.Deque.InsertAfter | internal/deque.go:216-236 | the new item comes right after the mark; the nil mark changes nothing |
| Deques.Deque.WriteAfter | internal/deque.go:222-234 | the exact writes that link a slot behind the mark |
| Deques.Deque.InsertBefore | internal/deque.go:240-261 | the new item comes right before the mark; the nil mark changes nothing |
| Deques.Deque.WriteBefore | internal/deque.go:246-259 | the exact writes that link a slot before the mark |
| Deques.Deque.MoveToBack | internal/deque.go:265-272 | the item becomes the last under the same address; the others keep their order |
| Deques.Deque.MoveToFront | internal/deque.go:275-281 | the item becomes the first under the same address; the others keep their order |
| Deques.Deque.Update | internal/deque.go:285-289 | only the value at that address changes |
| Deques.Deque.Remove | internal/deque.go:293-301 | the item at that address is removed; nil changes nothing |
| Deques.Deque.Reset | internal/deque.go:110-120 | the deque is empty with only the nil slot |
| Deques.Deque.Range | internal/deque.go:334-340 | f is called on the items from head to tail up to and including the first it is false for |
| Deques.Deque.Clone | internal/deque.go:344-351 | a new object with the same list, free stack and slots |
| DequeRuns.RunWf | internal/deque.go:142-330 | over every run on live addresses the slot invariant holds |
| DequeRuns.SlotsPartition | internal/deque.go:84-120 | in every reachable deque each slot but slot 0 is either in the chain or on the stack, never both |
| DequeRuns.SlotsArePeak | internal/deque.go:84-120 | the slice holds the nil slot and exactly as many more as were live at once since the deque was last empty |
| DequeRuns.StepSame | internal/deque_test.go:329-430 | one operation said of addresses is the same operation on a linked list said of its cells |
| DequeRuns.RunRefinesList | internal/deque_test.go:329-430 | over every run the deque holds the values that a linked list with cell identities holds, in the same order |
| DequeRuns.AddressStable | internal/deque.go:142-330 | an address denotes the same cell of that list, at the same position, for as long as its element lives |
| DequeRuns.RunIsFifo | internal/deque.go:165-198 | pushing at the back and popping at the front, what was popped followed by what is left is what there was followed by what was pushed |
| Words.PutBERoundTrip | internal/error.go:75-80 | a number written as big-endian bytes reads back as itself |
| Words.BERoundTrip | types.go:231-237 | bytes read as a big-endian number are written back as they were |
| Words.BEFirst | types.go:231-237 | the byte read first is the most significant one |
| Masks.MaskTwice | internal/utils.go:24-30 | masking twice with one key restores the bytes |
| Masks.MaskPhase | internal/utils.go:108-114 | cutting the payload at a multiple of four keeps the phase of the key |
| Masks.MaskedAt | internal/utils.go:24-30 | masked byte i is byte i exclusive-or key byte i modulo four |
| Masks.XorIsBytewise | internal/utils.go:92-93 | reading a little-endian word, exclusive-or and writing it back works byte by byte |
| Masks.Key64Bytes | internal/utils.go:88-89 | shifting and adding the 32-bit key gives the word of the key written twice |
| Masks.XorWordIsMask | internal/utils.go:112-113 | one 64-bit exclusive-or masks eight bytes |
| Masks.MaskByByte | internal/utils.go:24-30 | every byte is xored with the key byte of its index modulo four |
| Masks.XorWord | internal/utils.go:92-93 | one word operation extends the masked part by eight bytes and touches nothing else |
| Masks.XorTail | internal/utils.go:117-121 | the byte loop masks what the words left, in phase |
| Masks.MaskXOR | internal/utils.go:87-122 | blocks of 64, words of 8 and single bytes together mask as the byte-by-byte definition does |
| Bits.AndIsMod | session_storage.go:132-133 | the low bits of a word, masked by a power of two less one, are its remainder |
| PowersOfTwo.CeilPow2IsLeast | internal/utils.go:175-181 | doubling from 1 stops at the least power of two at or above the argument |
| PowersOfTwo.ToBinaryNumber | internal/utils.go:175-181 | the loop ends without wrapping, for arguments up to half the range, at that least power |
| PowersOfTwo.DoublingStopsIff | internal/utils.go:175-181 | the wrapping loop variable ever reaches the argument if and only if it is at most half the range |
| PowersOfTwo.SmearedVal | internal/pool.go:63-72 | smearing gives the least power of two for 1 to 2^31 and 0 for everything else |
| PowersOfTwo.BinaryCeil | internal/pool.go:63-72 | the step-by-step smearing computes that number |
| PowersOfTwo.SmearingIsDoubling | internal/pool.go:63-72 | for 1 to 2^31 the smearing and the doubling loop agree |
| BufferPools.CapacitySufficesIff | internal/pool.go:46-59 | Get(n) has room for n bytes if and only if n is at most 2^31 or no shard answers |
| BufferPools.PooledIff | internal/pool.go:38-59 | a buffer obtained for up to 2^31 bytes goes back to the pool if and only if that many are within its range |
| BufferPools.CapacityIsLeast | internal/pool.go:48-59 | up to the largest shard the capacity is that of the smallest shard that is enough; beyond it, exactly what was asked for |
| BufferPools.BufferPool.constructor | internal/pool.go:20-34 | the shards are exactly the powers of two between the rounded bounds, all empty |
| BufferPools.BufferPool.Put | internal/pool.go:38-44 | nil and buffers of no shard's size are dropped; any other is kept in the shard of its capacity; no buffer is pooled twice afterwards if and only if none was and this one was not pooled already |
| BufferPools.BufferPool.Get | internal/pool.go:48-59 | an empty buffer of the computed capacity, a free one if sync.Pool still has one of that class and otherwise a new one, and, if none is pooled twice, no longer in the pool |
| Payloads.ValidUtf8Concat | internal/io.go:24-29 | after valid text, the whole is valid if and only if the rest is |
| Utf8.EncodedIsRune | internal/io.go:24-29 | the encoding of a Unicode scalar value, whatever follows it, is read as one character of its length |
| Utf8.RuneIsEncoded | internal/io.go:24-29 | whatever is read as one character is the encoding of a scalar value |
| Utf8.ValidIffEncodesScalars | internal/io.go:24-29 | text is valid if and only if it encodes a sequence of scalar values: no surrogates, overlong forms, values beyond U+10FFFF or cut characters |
| Utf8.EncodingOkIff | internal/io.go:24-29 | a payload passes the check if and only if checking is off, the opcode is neither 1 nor 8, or it is such an encoding |
| Payloads.ConcatIs | internal/io.go:57-67 | each slice of a payload comes behind those before it |
| Payloads.SlicesValidIffCutsValid | internal/io.go:39-46 | every slice is valid if and only if no boundary between slices cuts a character |
| Payloads.AcceptedSlicesMakeValidText | internal/io.go:39-46 | what Writev accepts, a checking receiver of the concatenation accepts |
| Payloads.SplitCharacterIsRefused | internal/io.go:39-46 | the converse fails: a two-byte character cut in two is refused |
| Payloads.CheckEncoding | internal/io.go:24-46 | true exactly when every slice passes the check its opcode asks for |
| Payloads.Len | internal/io.go:48-77 | the length of the concatenation |
| Payloads.WriteTo | internal/io.go:57-83 | appends the concatenation to the buffer |
| FrameHeaders.ParseHeaderIn | types.go:219-250 | parsing a header whose length has any of the three forms gives back its parts and the bytes behind it |
| FrameHeaders.GenerateInvertsParse | types.go:219-250 | whatever parses is a header in some form: writing its parts again gives the same bytes |
| FrameHeaders.ParseExtends | types.go:219-250 | bytes that arrive behind a complete header do not change how it parses |
| FrameHeaders.ParseInvertsGenerate | types.go:198-250 | parsing the emitted header returns the same fin, opcode, mask bit, key and length, and exactly the rest of the stream |
| FrameHeaders.HeaderIsMinimal | types.go:173-186 | no header that parses to this length and masking is shorter |
| FrameHeaders.BitsOf | types.go:125-163 | the fields of the first two bytes, as bit masks |
| FrameHeaders.HeaderLayout | types.go:173-215 | the header byte by byte: opcode and FIN, length code and mask bit, an extended length of 0, 2 or 8 bytes, and a key for clients only |
| FrameHeaders.ByteReader.ReadN | internal/io.go:10-13 | fills the range exactly and consumes as much, or fails having consumed what was left |
| FrameHeaders.FrameHeader.SetLength | types.go:173-186 | the length code is added to byte 1, the extended length follows, other bytes stay |
| FrameHeaders.FrameHeader.GenerateHeader | types.go:198-215 | the header bytes of section 5.2 of RFC 6455, with the mask key contiguous after the length |
| FrameHeaders.FrameHeader.Parse | types.go:219-250 | the result and the fields read later depend on the stream alone, whatever the reused array held |
| FrameWriters.BackFill | writer.go:167-180 | pad, payload, masking and back-filled header leave exactly the frame's bytes |
| FrameWriters.GenFrame | writer.go:158-181 | refuses bad text, then oversized payloads, and otherwise builds the frame of the whole payload |
| FrameWriters.BuiltIff | writer.go:158-165 | a frame is built if and only if the content is within the limit and checked text is valid slice by slice; bad text is refused as such, and only otherwise an excess as too large |
| FrameWriters.BuiltBytes | writer.go:167-180 | what is built: the header of this role and length, then the content, exclusive-or the key byte for byte if a client sends it |
| FrameWriters.WritevActsAsWriteIff | writer.go:88-92 | Writev has the outcome of writing the concatenation, the same frame or the same refusal, if and only if that is not checked, valid text with a boundary inside a character |
| FrameWriters.BroadcastFitsIff | writer.go:227-241 | a broadcast's frame is one that another connection could have built itself if and only if it has the first one's role and does not refuse the payload |
| Readers.FrameStepConsumes | reader.go:148-158 | every frame read without error consumes bytes, so the reading loops end |
| Readers.LoopTurn | reader.go:160-188 | one turn of the read loop: an error ends it, control frames and messages are told in order, text is checked before it is delivered |
| Readers.OutOfRangeIff | reader.go:69-103 | readFrame slices past its buffer if and only if the header of a data frame passes the checks before and its length is negative, or beyond 2^31 while a shard answers |
| Readers.OutOfRangeExample | reader.go:102-103 | a frame of 14 bytes that does so under the default limits |
| Refusals.ReservedIff | reader.go:87-89 | a frame uses reserved bits if and only if its first byte has a bit of 0x70 |
| Refusals.HeaderRefusals | reader.go:72-98 | for any complete header: too long is 1009; otherwise a reserved bit, the wrong masking for the role, or a fragmented or long control frame is 1002; nothing is told and the open message stays |
| Refusals.ControlFrames | reader.go:24-64 | any other control frame, once its unmasked payload is there: 8 is told and ends with 1000, 9 and 10 are told, the rest are 1002 |
| Refusals.DataFrames | reader.go:100-144 | any other data frame, once its unmasked payload is there: what it begins, continues, completes or breaks, by opcode, FIN and the open message |
| Refusals.CutHeaders | types.go:219-250 | a header that ends early is EOF at the start of a read and an unexpected EOF inside one |
| Refusals.LengthAnnounced | types.go:224-240 | the length a header announces, from its 7 bits or the 2 or 8 bytes that follow |
| Refusals.TextIsChecked | reader.go:181-188 | a message is handed on unless it is checked text that is not valid, which ends the loop with 1007 |
| Readers.Conn.constructor | types.go:286-303 | a connection starts with no message open and nothing read |
| Readers.Conn.ReadPayload | reader.go:106-111 | the payload bytes, unmasked in place exactly when the mask bit is set, or a short read |
| Readers.Conn.ReadControl | reader.go:24-64 | fragmented and long control frames are refused; otherwise the handler sees the unmasked payload |
| Readers.Conn.FinishControl | reader.go:39-64 | a short payload is an error without an event; a whole one is dispatched by opcode |
| Readers.Conn.Dispatch | reader.go:49-64 | ping and pong go on, close ends the reading with 1000, unknown opcodes with 1002 |
| Readers.Conn.ReadFrame | reader.go:69-145 | the checks in their order, and the new state, for every frame and every shorter stream |
| Readers.Conn.ReadData | reader.go:100-111 | a data frame: the buffer's capacity, a short read, or the accepted payload |
| Readers.Conn.Accept | reader.go:113-144 | what becomes of the continuation frame, and whether a message is delivered |
| Readers.Conn.ReadMessage | reader.go:148-158 | repeats readFrame up to the first message or error |
| Readers.Conn.ReadLoop | conn.go:45-56 | what the handlers are told, messages and control frames in one order, and the error that ends the connection |
| Frames.PayloadOnWire | reader.go:102-111 | on the wire of any frame, its length in any form, header and unmasking give back its first byte, length and payload |
| Frames.ReadsWholeFrame | reader.go:69-145 | the reader decides about the frame that was sent, and if it accepts it has consumed exactly that frame |
| RoundTrips.FitsUpToTwo31 | reader.go:102-103 | slicing the pooled buffer to the payload length is in range up to 2^31 |
| RoundTrips.ControlsRead | reader.go:24-64 | any pings and pongs before a frame are reported in order and change nothing else |
| RoundTrips.FragmentsRead | reader.go:121-144 | the remaining fragments of an open message complete it with their concatenation |
| RoundTrips.ReadMessageReturnsWhatWasSent | reader.go:148-158 | a message sent in any number of fragments, control frames between them, is returned whole, with exactly its bytes consumed |
| RoundTrips.MessagesRoundTrip | writer.go:158-181 | for every list of messages so sent, repeated ReadMessage returns exactly those messages, and reports exactly those control frames, in one order, and consumes exactly their bytes |
| Conformance.AcceptIffNoViolation | reader.go:76-144 | the reader rejects a frame exactly when it breaks a rule about the frames before it, with that rule's error, and its state is the message those frames leave open |
| Conformance.ConformingFramesRead | conn.go:45-56 | the loop gets through conforming frames, tells exactly what they mean, and goes on behind them in the state they leave |
| Conformance.LoopOutcome | conn.go:45-56 | on any frames, their lengths in any form, the loop tells what the conforming prefix means and stops with the error of the first violation |
| Conformance.AcceptedIffConforming | reader.go:69-145 | the reader gets through a stream of frames if and only if the frames conform |
| Conformance.MisplacedFrameRefused | reader.go:113-133 | an orphan continuation, or a new message inside an open one, is refused with 1002 after its payload is read |
| Conformance.OpenIffLastDataFrameUnfinished | types.go:286-303 | a message is open if and only if the last data frame was not final |
| Conformance.WithinLimit | reader.go:135-138 | the open buffer and each message stay within ReadMaxPayloadSize |
| Conformance.FrameOfWire | reader.go:69-111 | the bytes of a complete frame are the wire of the frame they spell |
| Conformance.StopIsViolation | reader.go:69-145 | the reason to stop at a complete frame is the rule it breaks |
| Conformance.StepOrStop | reader.go:69-145 | on arbitrary bytes the reader gets through one frame and only that, or stops for a short read or a broken rule |
| Conformance.TornFrame | reader.go:76-108 | a frame that the stream breaks off is a short read, unless its header is there and breaks a rule, and then it is that rule |
| Conformance.ReadSoFarConforms | reader.go:76-145 | along any stream the reader's own continuation frame is the message that the frames read leave open |
| Conformance.AnyStream | reader.go:76-145 | every byte stream is frames that conform and then what the reader stops at; initialized, opcode and buffer are those of the message left open; the application is told what the frames mean; the error is a short read or the rule the next frame breaks; every message and the buffer stay within the limit |
| CloseCodes.StatusBytesRoundTrip | internal/error.go:75-80 | a code is sent as two bytes that decode to it |
| CloseCodes.EmitClose | conn.go:104-135 | the code to reply with, and the code and reason to report, for every close payload |
| CloseCodes.ReplyIff | conn.go:104-135 | which payload gets which reply, both ways and number by number: none, 1000, 1002, 1007, or the peer's own code |
| CloseCodes.ReplyIsLegal | conn.go:104-135 | the reply is empty or two bytes that decode to 1000, 1002, 1007 or the peer's own code in 3000 to 4999 |
| CloseCodes.ReplyEndsTheHandshake | conn.go:104-135 | the peer that receives the reply never answers it with an error code |
| CloseCodes.CloseFrameIsRead | writer.go:32-40 | every close frame built through writeClose passes the peer's control-frame checks with its payload intact, or exceeds only the peer's size limit |
| CloseCodes.CutIsValidIff | writer.go:33-35 | cutting valid text before a byte leaves it valid exactly when that byte starts a character |
| CloseCodes.CloseReasonArrivesValidIff | writer.go:17-35 | a valid reason arrives valid exactly when it has at most 123 bytes or byte 123 starts a character |
| CloseCodes.CutReasonExample | writer.go:17-35 | a reason of 124 bytes that arrives invalid |
| CloseCodes.ReadErrorsHaveLegalCodes | conn.go:77-100 | whatever error ends the reading, the code sent for it may be sent |
| Sessions.Writer.constructor | conn.go:18-34 | a connection starts open with nothing sent |
| Sessions.Writer.WriteN | internal/io.go:15-20 | the frame arrives whole behind what was there, or the network breaks inside it and stays broken |
| Sessions.Writer.DoWrite | writer.go:115-138 | refuses once closed, unless it is the close frame; otherwise writes what genFrame builds, or returns its error and writes nothing |
| Sessions.Writer.CloseWith | writer.go:32-40 | stores the error, tries to send at most 125 bytes in one close frame, disconnects |
| Sessions.Writer.TryClose | conn.go:82-99 | only the first closer stores its error and sends; to the others nothing happens |
| Sessions.Writer.EmitError | conn.go:77-100 | an error met while writing closes an open connection with 1001 and changes nothing on a closed one |
| Sessions.Writer.EmitReadError | conn.go:77-100 | the error that ends ReadLoop closes an open connection with the code it stands for |
| Sessions.Writer.AnswerClose | conn.go:104-139 | a received close payload closes an open connection with the reply to it, stores what the peer reported, and ends the reading normally |
| Sessions.Writer.WriteMessage | writer.go:66-70 | the error of doWrite, which also closes the connection |
| Sessions.Writer.WriteClose | writer.go:17-29 | the first call sends the code, at least 1000, and the reason, and returns how the write went; later calls fail and change nothing |
| Sessions.SessionSends | writer.go:17-138 | for any calls, what arrives is the messages before the first call that ends the session, in order, then that call's close frame, or the torn frame at which the network broke, and nothing more |
| SessionCodes.FineIsSent | writer.go:115-138 | on an open connection with a network that carries, a message within the limit, its text valid if checked, is sent, and nothing else changes |
| SessionCodes.AllFineAreSent | writer.go:66-138 | any number of such messages are all sent, in order, with nothing between them |
| SessionCodes.ClosedRefuses | writer.go:119-121 | once closed, a message is refused as such and changes nothing |
| SessionCodes.WriteCloseSays | writer.go:17-40 | WriteClose sends the larger of its code and 1000 and the reason up to 123 bytes, in a payload of at most 125 |
| SessionCodes.WriteCloseArrives | writer.go:17-40 | the peer's ReadLoop, whatever message it has open, is told of one close frame with that code and reason, and ends with 1000 |
| SessionCodes.FailedWriteSays | writer.go:66-70 | a message that genFrame refuses closes the connection with 1001 and the text "gbs: client going away", and stores the refusal |
| SessionCodes.BrokenWriteCloses | writer.go:66-70 | a message inside which the network breaks closes the connection with the network's error, and at most a first part of its frame arrives |
| SessionCodes.ReadErrorSays | conn.go:77-100 | the error that ends ReadLoop is sent under its own code, or 1000 if it has none, with its text |
| SessionCodes.AnswerSays | conn.go:104-139 | a close payload is answered by an empty one, or by two bytes holding the reply; what is stored is the code and reason received |
| Sessions.TornReads | reader.go:106-108 | a frame within the peer's limits that does not arrive whole ends the reading as a short read and tells nothing |
| Sessions.TornLongReads | reader.go:24-36 | an over-long ping or pong that does not arrive whole ends the reading with 1002 if its header has arrived, and as a short read otherwise |
| Sessions.SessionReads | reader.go:69-158 | if every frame is within the peer's limits and, if it checks, valid text, it is told exactly what was sent, in order, and stops at the close frame or goes on; otherwise it ends with an error of another kind |
| Sessions.SessionRoundTrip | writer.go:42-70 | between compatible peers, for any calls and a network that breaks anywhere: if a ping or pong over 125 bytes arrives whole the reading ends with another error; otherwise the peer is told exactly of the frames that arrived, in order, and ends at the close frame, at the end of the stream, or with 1002 at such a ping or pong torn behind its header |
| CloseProtocol.ClosingIsSafe | writer.go:17-40 | over every interleaving: one stored error, one close frame, one disconnect at most, and no data, ping or pong frame of doWrite after the close frame |
| CloseProtocol.NeverStuck | writer.go:115-138 | some goroutine can always move until all are finished, and then a closed connection has been disconnected and its error stored exactly once |
| CloseProtocol.EnabledStepDecreasesWork | writer.go:115-138 | every step brings the end closer, whatever the schedule |
| CloseHistory.WireIsWhatWasWritten | writer.go:115-138 | over every schedule the wire holds exactly the writes made before the connection is disconnected and not refused by genFrame, in order |
| CloseHistory.EveryWriteEndsOnce | writer.go:60-93 | once all goroutines have finished, every WriteMessage, Writev and Broadcast has ended once, with or without an error |
| CloseHistory.FailedWriteCloses | writer.go:66-70 | once all goroutines have finished, a write that ended in an error, or a call to close, has closed the connection, stored one error and disconnected once |
| CloseHistory.ClosedIffFailed | conn.go:77-100 | once all goroutines have finished, the connection is closed if and only if some write ended in an error or someone was to close it |
| CloseHistory.CloseFrameIsSent | writer.go:32-40 | a connection that is closed, all goroutines having finished, has sent exactly one close frame, unless genFrame refuses something |
| CloseProtocol.BroadcastAfterCloseIff | writer.go:214-222 | a broadcast frame can follow the close frame if and only if the connection is not disconnected yet and a goroutine is past its IsClosed test |
| CloseProtocol.BroadcastAfterCloseExample | writer.go:214-222 | a schedule in which that happens |
| CloseProtocol.OnCloseSeesNothingIff | conn.go:58-59 | when ReadLoop loads the stored error the connection is closed, and it finds none if and only if the goroutine that closed it has not stored it yet |
| CloseProtocol.OnCloseSeesNothingExample | conn.go:58-59 | a schedule in which that happens |
| WorkerQueues.WorkerQueue.constructor | task.go:33-40 | a new queue is empty with no worker |
| WorkerQueues.WorkerQueue.GetJob | task.go:44-61 | on the deque, the queue, the counter and the job are those of a first-in-first-out queue with a limit |
| Schedulers.NoJobIsStranded | task.go:44-78 | over every interleaving the counter is the number of live workers and within the limit, a waiting job means all slots are taken, and started jobs are the pushed ones in order, each running or finished once |
| Schedulers.NoSlotsNoWork | task.go:44-61 | with a limit that is not positive no job ever starts |
| Schedulers.OneSlotIsSequential | task.go:44-78 | with one slot, finished, running and waiting jobs are the pushed sequence, and at most one runs |
| Schedulers.StepCounts | task.go:65-72 | every step of a worker uses up exactly one of the steps left |
| Schedulers.QueueDrains | task.go:65-78 | once pushing stops, the workers can move until the queue is empty and every job has run exactly once, in order when there is one slot |
| Dispatchers.BoundedAndOnce | task.go:80-93 | over every interleaving at most as many handlers are under way as the channel has room for, and every message read waits, is about to be dispatched, or has been, exactly once |
| Dispatchers.StepUsesOne | task.go:86-93 | every step but reading another message uses up exactly one of the steps left |
| Dispatchers.EverythingIsDispatched | task.go:86-93 | some step is possible until nothing is left, and then every message read has been dispatched and handled exactly once |
| Dispatchers.OneIsInOrder | task.go:80-93 | with room for one, messages are dispatched in the order read |
| Dispatchers.AllRoomIsUsed | task.go:80-93 | for every k up to the room there is, some schedule has k handlers running at once |
| Dispatchers.OvertakingExample | task.go:80-93 | with room for two, the second message can overtake the first |
| Broadcasters.NextInv | writer.go:227-271 | every step keeps the count equal to the references held plus the bias until Close, and at most one release due |
| Broadcasters.FreedOnceAfterLastUse | writer.go:227-271 | over every interleaving the frame is put back at most once, after Close and the last write, and no write finds it back in the pool |
| Broadcasters.FreedInTheEnd | writer.go:254-271 | once Close has returned and no job is left, doClose has run once, and a frame that was built is in the pool if a shard has its capacity |
| Broadcasters.EveryBroadcastWritesOnce | writer.go:227-252 | once nothing is under way, every Broadcast has written to its connection exactly once, or none has because genFrame failed |
| Broadcasters.LateBroadcastIff | writer.go:227-271 | a Broadcast made after Close can write a frame back in the pool, or put it back twice, if and only if a shard has its capacity, and it had been built, or Close has found the count zero and not loaded the frame |
| Broadcasters.LateBroadcastExample | writer.go:227-271 | a finished broadcast, Close, and a late Broadcast that writes the freed frame and frees it again |
| BufferOwnership.BuffersHaveOneOwner | reader.go:101-145 | over every interleaving no buffer is pooled twice, pooled while owned, or owned twice, every pooled one has a shard's capacity, and each is put back once for every time it was handed out, but for its present owner |
| BufferOwnership.BroadcasterStep | writer.go:254-260 | a broadcast's frame is built while nothing has been put back and put back at most once, as it was loaded |
| BufferOwnership.PooledIsReused | internal/pool.go:48-59 | a pooled buffer of the size class is handed out again, and nothing else changes hands |
| BufferOwnership.FreesAreReturns | writer.go:254-260 | a broadcaster counts a free exactly when the pool gets the frame back, which is when a shard has the capacity Get gave it |
| BufferOwnership.BuffersFollowTheReader | reader.go:113-145 | the hand-over of buffers takes the branches the reader takes on the bytes: a delivered message owns the frame's own buffer, or the one it was assembled in if it had fragments, and assembly is under way exactly while the continuation frame is initialized |
| MessageClosing.ClosingAgainIsHarmless | types.go:280-284 | closing a message again, once its pointer has been cleared, changes nothing |
| MessageClosing.SecondCloseIff | types.go:280-284 | starting one more Close lets the Close calls under way return the buffer once too often if and only if the message points to it, another Close has loaded the pointer and not cleared it, and a shard has its capacity |
| MessageClosing.EarlyLoadExample | types.go:280-284 | a Close that loads the pointer, a whole other Close, and the first one's Put pool the buffer twice |
| ConcurrentMaps.HomeIsRemainder | session_storage.go:130-134 | the shard index is the hash modulo the shard count, and in range |
| ConcurrentMaps.MergeSize | session_storage.go:138-146 | the shard sizes add up to the size of the one map |
| ConcurrentMaps.ConcurrentMap.constructor | session_storage.go:111-124 | the shard count is the rounded size, 16 for none, and the map is empty |
| ConcurrentMaps.ConcurrentMap.GetSharding | session_storage.go:130-134 | the one shard in which the key can be |
| ConcurrentMaps.ConcurrentMap.Load | session_storage.go:152-158 | the value in the one map, or none |
| ConcurrentMaps.ConcurrentMap.Store | session_storage.go:171-176 | the one map with that key set, each key still in its own shard only |
| ConcurrentMaps.ConcurrentMap.Delete | session_storage.go:162-167 | the one map without that key |
| ConcurrentMaps.ConcurrentMap.Len | session_storage.go:138-146 | the number of keys of the one map |
| ConcurrentMaps.ConcurrentMap.Range | session_storage.go:181-193 | every pair of the one map exactly once, or stopped at the first false |

## Left out

- HTTP upgrade, dialing, TLS, listeners and socket options: network and library calls.
- Options and defaults: the role, the size limits and the UTF-8 flag are parameters.
- Random mask keys: the key is a parameter.
- FrameHeaders.FrameHeader.SetLength: adds to byte 1 as the code does, and GenerateHeader asks that byte to start at zero, as it does in genFrame.
- FrameHeaders.FrameHeader.GenerateHeader: lengths are unbounded numbers; its inverse is stated below 2^63, where the 64-bit length has its top bit clear.
- Deques.Deque.Reset: on the zero deque, which has no slot yet, the source's re-slice panics; the method asks for the nil slot.
- BufferPools.BufferPool.constructor: a lower bound outside 1 to 2^31 rounds to 0 and the source's loop would not end, so it is asked to lie there; the library passes 128.
- ConcurrentMaps.ConcurrentMap.constructor: asks for a size of at most 2^63, above which the rounding loop does not end (DoublingStopsIff).
- Deques.Deque.Range: f is a function of the item; a callback that changes the deque while it is walked is not modelled.
- Deques.Deque.Clone: slices are values here, so that the copies share no memory is built in.
- Deques.Deque.PushBack: addresses stand for the returned element pointers; the slot count stays below 2^32, as the addresses of the source must; Go's slice capacity is not modelled, so PushBack and the other insertions say nothing about reallocation.
- Deque.Get, Front, Back, Len and Stack: accessors, used inside the methods above.
- BufferPools.BufferPool.Get: whether sync.Pool still has a buffer is a parameter; goroutines sharing one pool are modelled in BufferOwnership instead, where any pooled buffer may be the one handed out.
- Buffers.WriteTo: the destination is a memory buffer that does not fail.
- The generic Pool and the read-buffer pool: wrappers around sync.Pool.
- Readers.Conn.ReadLoop: runs with handlers inline; with ParallelEnabled its messages go through Dispatchers instead. Panics with Recovery are not modelled. What OnClose is given is in CloseProtocol. The connection is a byte sequence that ends.
- Readers.Conn.ReadData: memory above the largest shard is taken to be available; the panic of a slice out of range is an error value.
- CloseCodes.EmitClose: computes the reply and the report only; Sessions.Writer.AnswerClose adds the compare-and-swap, the stored error and the write, and CloseProtocol their interleaving. Deadlines are left out.
- Sessions.SessionRoundTrip: one goroutine at a time; interleavings are in CloseProtocol. Calls use the text, binary, ping and pong opcodes.
- Sessions.Writer.DoWrite: one goroutine; the mutex is in CloseProtocol and the return of the frame to the pool in BufferOwnership.
- Sessions.Writer.EmitReadError: what an error prints as is a parameter; a slice out of range panics in Go and never gets here.
- CloseProtocol.ClosingIsSafe: speaks of writes through doWrite with data, ping or pong opcodes; a caller may also pass the close opcode to WriteMessage, and a broadcast may be late, and both are items of the model that it says nothing about.
- Schedulers.QueueDrains: a job always returns and does not itself push; a job that panics ends its goroutine in Go and is not modelled.
- WorkerQueues.WorkerQueue.GetJob: counters are unbounded integers, not int32.
- Broadcasters.FreedOnceAfterLastUse: fewer than 2^31 - 1 references are outstanding at once in practice, and the count is an unbounded integer here.
- BufferOwnership.BuffersHaveOneOwner: assumes that no Close is started in the case of SecondCloseIff and no broadcaster used after its Close. Copies of a Message value and bytes read after Close are the callers' responsibility.
- MessageClosing.SecondCloseIff: speaks of the Close calls under way alone; what a new owner of the buffer does between their steps is not part of it.
- Dispatchers.EverythingIsDispatched: a handler always returns.
- ConcurrentMaps.ConcurrentMap.Range: operations are taken one at a time; Len and Range lock shard by shard and see no single moment when others write between. The hash is any function of the key. The order within a shard is any order.
- smap and Map: one Go map behind a lock; Dafny's map stands for them.
- String helpers, header comparison, FNV, reflection, logging, examples and benchmarks.
