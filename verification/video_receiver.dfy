/** The video receiver as the object it is: two fields updated in place by
    the receive handler, the frame-packet handler and the fragmentation
    handler. Each method is proved to do what the step functions of module
    Reassembly say, so every lemma proved there holds of the object. A frame
    handed to the delegate is returned instead. */
module VideoReceiving {
  import opened Wire
  import opened VideoPacket
  import opened Reassembly

  /** The reassembly loop: walks the indices 0 .. total-1 in order,
      appending each fragment, and stops at the first absent one. */
  method ReassembleFrame(buffer: FragmentBuffer, total: u16) returns (r: Assembly)
    ensures r == Assemble(buffer, total)
    ensures r.Complete? <==> HasAll(buffer, total)
    ensures r.Complete? ==> r.frame == Concat(buffer, total)
    ensures r.Missing? ==> r.index < total && r.index !in buffer
  {
    var completeFrame: Bytes := [];
    for fragmentIndex := 0 to total
      invariant Assemble(buffer, fragmentIndex) == Complete(completeFrame)
    {
      if fragmentIndex in buffer {
        completeFrame := completeFrame + buffer[fragmentIndex];
      } else {
        return Missing(fragmentIndex);
      }
    }
    return Complete(completeFrame);
  }

  class VideoReceiver {
    var frameSequenceCurrent: u32
    var fragmentBuffer: FragmentBuffer

    /** The receiver's state as a value. */
    function State(): Receiver
      reads this
    {
      Receiver(frameSequenceCurrent, fragmentBuffer)
    }

    constructor ()
      ensures State() == Initial
    {
      frameSequenceCurrent := 0;
      fragmentBuffer := map[];
    }

    /** The handling of one received datagram: too short, routed to the
        frame path, routed to the parameter path, or ignored. A `TooShort`
        route is the case whose handler returns before re-arming the receive,
        which `Run` records as a stall. */
    method Receive(data: Bytes) returns (route: Route, event: Option<FrameEvent>)
      modifies this
      ensures route == Classify(data)
      ensures (State(), event) == DatagramStep(old(State()), data)
      ensures route != ToFrame ==> State() == old(State()) && event == None
    {
      route := Classify(data);
      event := None;
      if route == TooShort {
        return;
      }
      if data[1] == FRAME_TYPE {
        var e := ProcessFramePacket(data);
        event := Some(e);
      }
      if data[1] == PARAMETERS_TYPE {
        // The parameter path builds a decoder format description; it does
        // not involve the reassembly state.
      }
    }

    /** One frame packet: stale check, newer-frame check, then the
        unfragmented emit or the fragmentation handler. */
    method ProcessFramePacket(data: Bytes) returns (event: FrameEvent)
      requires |data| >= HEADER_LENGTH
      modifies this
      ensures (State(), event) == FrameStep(old(State()), ParseFramePacket(data))
    {
      var fragmentSequenceTotal := ReadU16BE(data, 4);
      var frameSequenceNumber := ReadU32BE(data, 6);
      var payload := data[HEADER_LENGTH..];
      ghost var p := ParseFramePacket(data);
      assert p.fragmentTotal == fragmentSequenceTotal && p.frameSequence == frameSequenceNumber;

      if frameSequenceNumber < frameSequenceCurrent {
        return Stale;
      }

      if frameSequenceNumber > frameSequenceCurrent {
        fragmentBuffer := map[];
        frameSequenceCurrent := frameSequenceNumber;
      }
      assert State() == Admit(old(State()), p.frameSequence);

      if fragmentSequenceTotal == 0 {
        if frameSequenceNumber == U32_MAX {
          return EmittedThenOverflow(payload);
        }
        frameSequenceCurrent := frameSequenceNumber + 1;
        event := Emitted(payload);
      } else {
        event := HandleFragmentationUnit(data);
      }
    }

    /** One fragment: stored unless its index is held; once the buffer holds
        as many entries as the declared total, the frame is reassembled. */
    method HandleFragmentationUnit(data: Bytes) returns (event: FrameEvent)
      requires |data| >= HEADER_LENGTH
      modifies this
      ensures (State(), event) == FragmentStep(old(State()), ParseFramePacket(data))
    {
      var fragmentSequenceNumber := ReadU16BE(data, 2);
      var fragmentSequenceTotal := ReadU16BE(data, 4);
      var frameSequenceNumber := ReadU32BE(data, 6);
      var payload := data[HEADER_LENGTH..];

      if fragmentSequenceNumber !in fragmentBuffer {
        fragmentBuffer := fragmentBuffer[fragmentSequenceNumber := payload];
      }

      if |fragmentBuffer| == fragmentSequenceTotal {
        var assembly := ReassembleFrame(fragmentBuffer, fragmentSequenceTotal);
        match assembly
        case Missing(i) =>
          return MissingFragment(i);
        case Complete(completeFrame) =>
          if frameSequenceNumber == U32_MAX {
            return EmittedThenOverflow(completeFrame);
          }
          frameSequenceCurrent := frameSequenceNumber + 1;
          fragmentBuffer := map[];
          return Emitted(completeFrame);
      }
      return Waiting;
    }
  }
}
