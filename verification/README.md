# Chonchon transport core, modelled in Dafny

Chonchon is a minimal remote-screen client. Video frames arrive from the
remote host as UDP datagrams, and pointer and button events go back to it as
UDP datagrams. This project models the two components of the client that
hold real logic, and proves properties about them:

- **The video receiver** (`Chonchon/VideoReceiver.swift`). It classifies
  each datagram by its type byte and extracts the big-endian header fields
  of a frame packet. It then runs the frame reassembly state machine over
  two fields: the current frame sequence and a fragment buffer keyed by
  fragment index. The machine drops stale frames and evicts the buffer when
  a newer frame arrives. It emits unfragmented payloads at once and stores
  fragments first-writer-wins. When the buffer size reaches the declared
  total, it concatenates fragments 0 .. total-1 in index order.
- **The event sender** (`Chonchon/EventSender.swift`). It writes 12-byte
  cursor packets: version, event type, a big-endian u32 event sequence,
  big-endian u16 X and Y, and two extra bytes.

Files and modules:

- `wire.dfy`, module `Wire`: the byte, u16 and u32 types and the
  big-endian codecs, with round trips in both directions.
- `video_packet.dfy`, module `VideoPacket`: datagram routing (`Classify`),
  plus parsing and encoding of a frame packet.
- `reassembly.dfy`, module `Reassembly`: the reassembly state as a value.
  It holds the effect of one frame packet (`FrameStep`), one datagram
  (`DatagramStep`), a run of datagrams (`Run`) and a run of parsed packets
  (`Play`), with the lemmas about them.
- `video_receiver.dfy`, module `VideoReceiving`: the class
  `VideoReceiver`, whose fields `frameSequenceCurrent` and `fragmentBuffer`
  are updated in place. Each method is proved to follow the step functions
  exactly, so the `Reassembly` lemmas hold of the object. The reassembly
  loop is the method `ReassembleFrame`.
- `parameter_sets.dfy`, module `ParameterSets`: the all-or-nothing
  decoding loop of the parameter path, with the transport decoder passed in
  as a parameter.
- `control_channel.dfy`, module `ControlChannel`: the cursor packet layout,
  a reference decoder, the class `EventSender`, and the view model's use of
  one sender for a whole session.
- `scenarios.dfy`, module `Scenarios`: concrete runs of the receiver.

How the model represents the receiver:

- A frame the receiver hands to its delegate is returned as a
  `FrameEvent` instead.
- Swift's `UInt32` `frameSequenceNumber + 1` traps at 0xFFFF_FFFF. The
  delegate has already received the frame at that point. The model reports
  the trap as the event `EmittedThenOverflow`, and the state is the one at
  the trap point. `Run` and `Play` stop there, because the process ends.
- The Swift code builds u16 and u32 values with shifts and `|`. Because the
  shifted bytes never overlap, the model writes them as sums of
  multiples of 256.

Behaviour the model keeps exactly as coded:

- An unfragmented packet whose sequence equals the current one is emitted,
  and the sequence advances. The fragments pending for that sequence are
  not cleared. They can be glued into the next frame
  (`Scenarios.PendingFragmentLeaksIntoNextFrame`). Because of this, no
  "all buffered fragments share one sequence" invariant is claimed.
- A full buffer with an absent index returns without clearing the buffer
  or advancing the sequence. The absent index always comes with a held
  index of `total` or above, and such a stray index is never removed while
  the sequence stays. After that path the buffer holds `total` entries: a
  new index makes it larger, and a duplicate re-runs the same
  missing-fragment path, so that frame is never emitted (`Reassembly.StrayIndexBlocksForever`, and
  the concrete run `Scenarios.StrayIndexBlocksFrame`).
- A datagram under 10 bytes makes the receive handler return before it
  re-arms the receive, so nothing after it is read on that connection. A
  run of datagrams ends there as `Stalled` (`Reassembly.ShortDatagramStops`).
- The receiver never checks the version byte.

Further facts about the code that a reader might not expect:

- The video payload starts at byte 10, right after the ten header bytes.
- The event sequence counter starts at 0 and is never incremented.
- Cursor coordinates are truncated to u16, and values outside the u16
  range trap. Scaling is left out here.

## Model

| member | source | states |
|---|---|---|
| Wire.ReadU16BE | Chonchon/VideoReceiver.swift:108-109 | The u16 read at an offset has the first byte as its high byte (`v / 256`) and the second as its low byte (`v % 256`) |
| Wire.ReadU32BE | Chonchon/VideoReceiver.swift:110-111 | Each of the four bytes read is recovered as the matching big-endian digit of the u32 value |
| Wire.EncodeU16BE | Chonchon/EventSender.swift:36-39 | The two bytes written for a u16 read back as that u16 |
| Wire.EncodeU32BE | Chonchon/EventSender.swift:32-35 | The four bytes written for a u32 read back as that u32 |
| Wire.EncodeReadU16BE | Chonchon/VideoReceiver.swift:108-109 | Reading two bytes and re-encoding the value gives the same bytes, so decoding is injective |
| Wire.EncodeReadU32BE | Chonchon/VideoReceiver.swift:110-111 | Reading four bytes and re-encoding the value gives the same bytes |
| VideoPacket.Classify | Chonchon/VideoReceiver.swift:49-60 | A datagram under 10 bytes reaches no handler. Otherwise byte 1 = 0x01 goes only to the frame path, 0x02 only to the parameter path, and any other value to neither (each as an if-and-only-if) |
| VideoPacket.ParseFramePacket | Chonchon/VideoReceiver.swift:71-74 | Fragment index, total and frame sequence are the big-endian values of bytes 2-3, 4-5 and 6-9; the payload is everything from byte 10 |
| VideoPacket.EncodeFramePacket | Chonchon/VideoReceiver.swift:108-112 | An encoded frame packet is 10 bytes plus the payload, is routed to the frame path, and parses back to the same fields and payload |
| VideoPacket.EncodeParseFramePacket | Chonchon/VideoReceiver.swift:71-74 | A frame-path datagram with version 1 is exactly the encoding of what is parsed from it |
| Reassembly.Assemble | Chonchon/VideoReceiver.swift:119-127 | The walk over indices 0 .. n-1 completes iff every index is held, and then yields the fragments concatenated in index order. Otherwise it reports the first absent index, which is below n |
| Reassembly.ConcatPlacesFragment | Chonchon/VideoReceiver.swift:119-123 | In the reassembled frame, fragment i occupies the bytes right after fragments 0 .. i-1 (ascending index order) |
| Reassembly.ConcatLength | Chonchon/VideoReceiver.swift:119-123 | The reassembled frame is as long as all its fragments together |
| Reassembly.FullBufferComplete | Chonchon/VideoReceiver.swift:118-126 | When the buffer holds exactly `total` entries, every index 0 .. total-1 is present iff no index of `total` or above was stored |
| Reassembly.Admit | Chonchon/VideoReceiver.swift:83-86 | A non-stale packet leaves its sequence current; a newer one leaves the buffer empty, an equal one leaves it untouched |
| Reassembly.Store | Chonchon/VideoReceiver.swift:114-116 | First writer wins: a held index keeps its payload and the size is unchanged; a new index adds one entry with the payload; no other entry changes |
| Reassembly.FragmentStep | Chonchon/VideoReceiver.swift:107-133 | A fragment never reads as stale. Unless a frame is handed out, the sequence stays, nothing held is lost and the fragment's index is held. A reported missing index is below the total and absent from a buffer of exactly total entries. An emitted frame leaves an empty buffer at sequence + 1; the trap happens only at 0xFFFF_FFFF |
| Reassembly.FrameStep | Chonchon/VideoReceiver.swift:70-97 | A packet is dropped as stale iff its sequence is below the current one, and then nothing changes; the current sequence never goes down |
| Reassembly.DatagramStep | Chonchon/VideoReceiver.swift:49-60 | A datagram reaches the reassembly state iff it is routed to the frame path; any other datagram leaves the state unchanged |
| Reassembly.Run | Chonchon/VideoReceiver.swift:46-67 | Over a run of datagrams on one connection, at most one frame is handed out per datagram. A trap ends the run right after a frame at sequence 0xFFFF_FFFF, and a stall needs a datagram under 10 bytes |
| Reassembly.Play | Chonchon/VideoReceiver.swift:70-133 | Over a run of parsed packets, at most one frame is handed out per packet, a trap ends the run right after a frame at sequence 0xFFFF_FFFF, and there is never a stall |
| Reassembly.StaleIsDropped | Chonchon/VideoReceiver.swift:77-80 | A packet older than the current sequence emits nothing and changes neither the sequence nor the buffer |
| Reassembly.NewerFrameEvicts | Chonchon/VideoReceiver.swift:83-86 | After a packet of a newer frame, the buffer holds at most that packet's own fragment |
| Reassembly.UnfragmentedIsEmitted | Chonchon/VideoReceiver.swift:89-92 | A non-stale unfragmented packet emits exactly its payload and sets the sequence to its sequence + 1; only the newer-frame check affects the buffer |
| Reassembly.DuplicateFragmentIgnored | Chonchon/VideoReceiver.swift:114-116 | A fragment whose index is held leaves the state exactly as it was, unless it triggers a completed frame |
| Reassembly.FullBufferOutcome | Chonchon/VideoReceiver.swift:118-131 | At a full buffer covering 0 .. total-1, the emitted frame is the index-order concatenation, the sequence becomes sequence + 1 and the buffer becomes empty. With an index absent, nothing is emitted, the state is the one right after storing, and some stray index of `total` or above is held |
| Reassembly.StrayIndexBlocksStep | Chonchon/VideoReceiver.swift:114-131 | With an index of `total` or above held, a fragment of the current frame emits nothing, keeps the sequence and keeps that index held |
| Reassembly.StepMonotonic | Chonchon/VideoReceiver.swift:77-92 | One frame packet never lowers the current sequence. A non-stale packet leaves it at the packet's sequence or at sequence + 1, the latter only below 0xFFFF_FFFF. The overflow trap happens only at 0xFFFF_FFFF |
| Reassembly.RunMonotonic | Chonchon/VideoReceiver.swift:49-92 | Across any run of datagrams, the current frame sequence never decreases |
| Reassembly.ShortDatagramStops | Chonchon/VideoReceiver.swift:50-63 | A datagram under 10 bytes reaches no handler and changes no state, and because its handler returns before re-arming the receive, a run reaching it ends there as `Stalled` with nothing after it processed |
| Reassembly.StrayIndexBlocksForever | Chonchon/VideoReceiver.swift:114-131 | Once an index of `total` or above is held, no run of fragments of the current frame declaring that total ever emits a frame: the sequence stays and the stray index stays held |
| Reassembly.RunOfEncoded | Chonchon/VideoReceiver.swift:49-60 | Receiving the encodings of frame packets has the same outcome as playing the parsed packets |
| Reassembly.InOrderUnfragmentedFrames | Chonchon/VideoReceiver.swift:77-92 | Unfragmented frames with strictly increasing sequences below the top, none stale, are each emitted exactly once, in order, with no trap |
| Reassembly.StoreAllSaturated | Chonchon/VideoReceiver.swift:114-116 | Once every index below the total is held, further fragments of that frame leave the buffer unchanged |
| Reassembly.StalePacketsIgnored | Chonchon/VideoReceiver.swift:77-80 | A run of packets older than the current sequence emits nothing and leaves the state unchanged |
| Reassembly.FragmentsInAnyOrder | Chonchon/VideoReceiver.swift:107-133 | Fragments of one frame arrive in any order and with duplicates, on top of a partial buffer. If they cover every index, the first-written fragments are emitted exactly once, concatenated in index order, and the buffer ends empty at sequence + 1. Otherwise nothing is emitted and the buffer holds the first-written fragments |
| Reassembly.NewFrameFragments | Chonchon/VideoReceiver.swift:83-133 | When the datagrams of a frame newer than the current one are received, the output depends on those fragments alone: nothing buffered for an earlier frame leaks in |
| Scenarios.SkippedSequenceAndReversedFragments | Chonchon/VideoReceiver.swift:77-131 | Frame 5 "AAA", then frame 7's fragments 1 "Y" and 0 "X": the engine emits "AAA", then "XY", and ends at sequence 8 with an empty buffer |
| Scenarios.PendingFragmentLeaksIntoNextFrame | Chonchon/VideoReceiver.swift:83-131 | A fragment pending for frame 10 survives an unfragmented frame 10, and is emitted as part of frame 11 |
| Scenarios.StrayIndexBlocksFrame | Chonchon/VideoReceiver.swift:114-126 | A stray fragment index fills the buffer early. In this three-packet run the missing-fragment path keeps everything, and nothing is emitted |
| Scenarios.TopSequenceTraps | Chonchon/VideoReceiver.swift:89-92 | An unfragmented frame at sequence 0xFFFF_FFFF is handed out, then the increment traps and nothing after it is processed |
| VideoReceiving.ReassembleFrame | Chonchon/VideoReceiver.swift:119-127 | The loop returns the index-order concatenation iff all of 0 .. total-1 are held, and otherwise an absent index below the total |
| VideoReceiving.VideoReceiver.constructor | Chonchon/VideoReceiver.swift:18-19 | A new receiver starts at sequence 0 with an empty buffer |
| VideoReceiving.VideoReceiver.Receive | Chonchon/VideoReceiver.swift:49-60 | The route is `Classify` of the datagram. A datagram not routed to the frame path changes no field and emits no frame; a `TooShort` route is the one that ends reading on the connection. A frame-path datagram has exactly the effect of `DatagramStep` |
| VideoReceiving.VideoReceiver.ProcessFramePacket | Chonchon/VideoReceiver.swift:70-97 | The new sequence, new buffer and emitted frame are exactly those of `FrameStep` on the parsed packet and the old state |
| VideoReceiving.VideoReceiver.HandleFragmentationUnit | Chonchon/VideoReceiver.swift:107-133 | The new sequence, new buffer and emitted frame are exactly those of `FragmentStep` on the parsed packet and the old state |
| ParameterSets.DecodeParameterSets | Chonchon/VideoReceiver.swift:165-177 | A result comes back iff every record decodes. It then holds every decoded record, in order; a single undecodable record gives no result |
| ControlChannel.CursorLayout | Chonchon/EventSender.swift:29-41 | A cursor packet is exactly 12 bytes. Byte 0 is 1 and byte 1 the type. Bytes 2-5 read back as the sequence, and bytes 6-7 and 8-9 as X and Y. Bytes 10 and 11 are the extra bytes |
| ControlChannel.DecodeCursor | Chonchon/EventSender.swift:29-41 | A packet the reference decoder accepts is 12 bytes with version 1 and byte 11 zero |
| ControlChannel.DecodeEncodeCursor | Chonchon/EventSender.swift:29-41 | Decoding an encoded cursor packet recovers its event, button, sequence and X/Y |
| ControlChannel.EncodeDecodeCursor | Chonchon/EventSender.swift:29-41 | Every packet the decoder accepts is the encoding of what it decoded |
| ControlChannel.EventSender.constructor | Chonchon/EventSender.swift:14 | The event sequence starts at 0 |
| ControlChannel.EventSender.CreateCursorPacket | Chonchon/EventSender.swift:23-44 | Writing the 12-byte buffer index by index yields exactly the cursor layout of the arguments and the current sequence; nothing is modified |
| ControlChannel.EventSender.SendCursorMovePacket | Chonchon/EventSender.swift:46-49 | The packet has type 0xA1 and extra bytes 0, 0, and decodes to a move at X/Y with the current sequence; the sequence is unchanged |
| ControlChannel.EventSender.SendCursorButtonUpPacket | Chonchon/EventSender.swift:51-54 | The packet has type 0xA2, the button in byte 10 and 0 in byte 11, and decodes to that button release; the sequence is unchanged |
| ControlChannel.EventSender.SendCursorButtonDownPacket | Chonchon/EventSender.swift:56-59 | The packet has type 0xA3, the button in byte 10 and 0 in byte 11, and decodes to that button press; the sequence is unchanged |
| ControlChannel.HandleCursorInput | Chonchon/Views/ClientViewModel.swift:25-33 | Each input goes to the send method of its kind, and the packet decodes to that input with the sender's sequence |
| ControlChannel.SendSession | Chonchon/Views/ClientViewModel.swift:18-33 | Over a whole session with one sender, packet i decodes to input i with event sequence 0: nothing ever increments the counter |

## Left out

- Network plumbing is I/O on dispatch queues and is not modelled. This
  covers listener and connection setup, starting connections, re-arming
  the receive, and the send completion handler. A datagram is an input of
  `Receive`, and a sent packet is a result of the send methods. Of the
  re-arming, only its omission after a short datagram is modelled (the
  `Stalled` ending). A receive error, which also ends reading, is not
  modelled, because errors come from the network stack.
- JSON decoding, Base64 decoding and the creation of the HEVC format
  description are foreign calls and are not modelled. Manual pointer
  allocation is left out too, including allocations never freed on the
  error paths. Only the all-or-nothing record loop is modelled, with the
  decoder as a parameter.
- `Chonchon/VideoDecoder.swift` is not part of this model. It is a wrapper
  around the platform video decoder with an asynchronous callback.
- The floating-point scaling of cursor coordinates to u16 is not modelled,
  because it is floating point and traps outside the range. X and Y enter
  as already-scaled u16 values.
- The views and the app wiring are UI code and are not modelled. Weak
  delegate references and main-queue hops are replaced by returned values.
- Concurrency is not modelled. Each channel is driven by one serial
  queue, so the model treats every call as sequential.
- VideoReceiving.VideoReceiver.ProcessFramePacket: requires at least 10
  bytes. The Swift method indexes bytes 2 to 9 unchecked and relies on its
  only caller having dropped shorter datagrams.
- VideoReceiving.VideoReceiver.HandleFragmentationUnit: requires at least
  10 bytes, for the same reason.
- ControlChannel.EventSender.SendCursorButtonUpPacket: requires the button
  to be in 0 .. 255. The Swift `UInt8(button)` traps outside that range,
  and the only caller passes a mouse-button number.
- ControlChannel.EventSender.SendCursorButtonDownPacket: requires the
  button to be in 0 .. 255, for the same reason.
