/** The inbound video channel's datagrams: how the receive handler routes a
    datagram by its type byte, and the fields of a frame packet.

    Layout of a frame packet, as the receiver reads it:
      byte 0      version (written as 1 by the sender, never checked here)
      byte 1      packet type: 0x01 frame, 0x02 parameters
      bytes 2-3   fragment index, big-endian u16
      bytes 4-5   fragment total, big-endian u16 (0 = not fragmented)
      bytes 6-9   frame sequence, big-endian u32
      bytes 10..  payload */
module VideoPacket {
  import opened Wire

  /** Datagrams shorter than this are dropped before the type byte is read. */
  const MIN_DATAGRAM_LENGTH: nat := 10
  const HEADER_LENGTH: nat := 10
  const VERSION: byte := 0x01
  const FRAME_TYPE: byte := 0x01
  const PARAMETERS_TYPE: byte := 0x02

  /** Where the receive handler sends one datagram. */
  datatype Route = TooShort | ToFrame | ToParameters | Ignored

  /** The dispatch of the receive closure: a short datagram reaches no
      handler; otherwise byte 1 picks the frame path, the parameter path,
      or neither. */
  function Classify(d: Bytes): (r: Route)
    ensures r == TooShort <==> |d| < MIN_DATAGRAM_LENGTH
    ensures r == ToFrame <==> |d| >= MIN_DATAGRAM_LENGTH && d[1] == FRAME_TYPE
    ensures r == ToParameters <==> |d| >= MIN_DATAGRAM_LENGTH && d[1] == PARAMETERS_TYPE
    ensures r == Ignored <==> |d| >= MIN_DATAGRAM_LENGTH && d[1] != FRAME_TYPE && d[1] != PARAMETERS_TYPE
  {
    if |d| < MIN_DATAGRAM_LENGTH then TooShort
    else if d[1] == FRAME_TYPE then ToFrame
    else if d[1] == PARAMETERS_TYPE then ToParameters
    else Ignored
  }

  /** The header fields and payload of a frame packet. */
  datatype FramePacket = FramePacket(
    fragmentIndex: u16,
    fragmentTotal: u16,
    frameSequence: u32,
    payload: Bytes)

  /** Field extraction of a frame packet; the caller has already checked
      that the datagram holds at least the ten header bytes. */
  function ParseFramePacket(d: Bytes): (p: FramePacket)
    requires |d| >= HEADER_LENGTH
    ensures EncodeU16BE(p.fragmentIndex) == d[2..4]
    ensures EncodeU16BE(p.fragmentTotal) == d[4..6]
    ensures EncodeU32BE(p.frameSequence) == d[6..10]
    ensures p.payload == d[HEADER_LENGTH..]
  {
    EncodeReadU16BE(d, 2);
    EncodeReadU16BE(d, 4);
    EncodeReadU32BE(d, 6);
    FramePacket(ReadU16BE(d, 2), ReadU16BE(d, 4), ReadU32BE(d, 6), d[HEADER_LENGTH..])
  }

  /** The datagram a sender emits for a frame packet. */
  function EncodeFramePacket(p: FramePacket): (d: Bytes)
    ensures |d| == HEADER_LENGTH + |p.payload|
    ensures d[0] == VERSION && Classify(d) == ToFrame
    ensures ParseFramePacket(d) == p
  {
    var d := [VERSION, FRAME_TYPE] + EncodeU16BE(p.fragmentIndex) + EncodeU16BE(p.fragmentTotal)
      + EncodeU32BE(p.frameSequence) + p.payload;
    assert d[2..4] == EncodeU16BE(p.fragmentIndex);
    assert d[4..6] == EncodeU16BE(p.fragmentTotal);
    assert d[6..10] == EncodeU32BE(p.frameSequence);
    assert d[HEADER_LENGTH..] == p.payload;
    d
  }

  /** Every datagram routed to the frame path whose version byte is 1 is the
      encoding of the packet parsed from it: parsing loses nothing. */
  lemma EncodeParseFramePacket(d: Bytes)
    requires Classify(d) == ToFrame && d[0] == VERSION
    ensures EncodeFramePacket(ParseFramePacket(d)) == d
  {
  }
}
