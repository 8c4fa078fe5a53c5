/** The outbound control channel: cursor and button events encoded into
    fixed 12-byte packets.

    Layout:
      byte 0      version, always 1
      byte 1      event type: 0xA1 move, 0xA2 button up, 0xA3 button down
      bytes 2-5   event sequence, big-endian u32
      bytes 6-7   cursor X, big-endian u16
      bytes 8-9   cursor Y, big-endian u16
      byte 10     button number (0 for a move)
      byte 11     always 0

    Positions enter already scaled to u16. The sender's sequence counter
    starts at 0 and nothing ever advances it. */
module ControlChannel {
  import opened Wire

  const CURSOR_PACKET_LENGTH: nat := 12
  const VERSION: byte := 0x01
  const MOVE_TYPE: byte := 0xA1
  const BUTTON_UP_TYPE: byte := 0xA2
  const BUTTON_DOWN_TYPE: byte := 0xA3

  datatype CursorEvent = Move | ButtonUp(button: byte) | ButtonDown(button: byte)

  /** One control packet's content. */
  datatype CursorPacket = CursorPacket(event: CursorEvent, sequence: u32, x: u16, y: u16)

  function EventType(e: CursorEvent): byte {
    match e
    case Move => MOVE_TYPE
    case ButtonUp(_) => BUTTON_UP_TYPE
    case ButtonDown(_) => BUTTON_DOWN_TYPE
  }

  /** The first extra byte: the button number, 0 for a move. */
  function ExtraData1(e: CursorEvent): byte {
    match e
    case Move => 0
    case ButtonUp(b) => b
    case ButtonDown(b) => b
  }

  /** The byte layout the packet builder writes. */
  function CursorLayout(eventType: byte, sequence: u32, x: u16, y: u16, extra1: byte, extra2: byte): (p: Bytes)
    ensures |p| == CURSOR_PACKET_LENGTH
    ensures p[0] == VERSION && p[1] == eventType
    ensures ReadU32BE(p, 2) == sequence
    ensures ReadU16BE(p, 6) == x && ReadU16BE(p, 8) == y
    ensures p[10] == extra1 && p[11] == extra2
  {
    var p := [VERSION, eventType] + EncodeU32BE(sequence) + EncodeU16BE(x) + EncodeU16BE(y) + [extra1, extra2];
    assert p[2..6] == EncodeU32BE(sequence);
    assert p[6..8] == EncodeU16BE(x);
    assert p[8..10] == EncodeU16BE(y);
    p
  }

  function EncodeCursor(c: CursorPacket): Bytes {
    CursorLayout(EventType(c.event), c.sequence, c.x, c.y, ExtraData1(c.event), 0)
  }

  /** A reading of the layout by the receiving end: exactly 12 bytes,
      version 1, a known event type, byte 11 zero and, for a move, byte 10
      zero. The receiving host is not part of this repository; this is the
      reference the encoder is checked against. */
  function DecodeCursor(p: Bytes): (r: Option<CursorPacket>)
    ensures r.Some? ==> |p| == CURSOR_PACKET_LENGTH && p[0] == VERSION && p[11] == 0
  {
    if |p| != CURSOR_PACKET_LENGTH || p[0] != VERSION || p[11] != 0 then None
    else
      var event :=
        if p[1] == MOVE_TYPE && p[10] == 0 then Some(Move)
        else if p[1] == BUTTON_UP_TYPE then Some(ButtonUp(p[10]))
        else if p[1] == BUTTON_DOWN_TYPE then Some(ButtonDown(p[10]))
        else None;
      match event
      case None => None
      case Some(e) => Some(CursorPacket(e, ReadU32BE(p, 2), ReadU16BE(p, 6), ReadU16BE(p, 8)))
  }

  /** Decoding an encoded packet gives back the event, sequence and position. */
  lemma DecodeEncodeCursor(c: CursorPacket)
    ensures DecodeCursor(EncodeCursor(c)) == Some(c)
  {
  }

  /** Every packet the decoder accepts is the encoding of what it decoded:
      the two are inverse on well-formed packets. */
  lemma EncodeDecodeCursor(p: Bytes)
    requires DecodeCursor(p).Some?
    ensures EncodeCursor(DecodeCursor(p).value) == p
  {
  }

  class EventSender {
    var eventSequenceNumber: u32

    constructor ()
      ensures eventSequenceNumber == 0
    {
      eventSequenceNumber := 0;
    }

    /** Fills a 12-byte buffer index by index from the arguments and the
        current sequence counter. */
    method CreateCursorPacket(eventType: byte, x: u16, y: u16, extraData1: byte, extraData2: byte)
      returns (packet: Bytes)
      ensures packet == CursorLayout(eventType, eventSequenceNumber, x, y, extraData1, extraData2)
    {
      var header := new byte[CURSOR_PACKET_LENGTH];
      header[0] := VERSION;
      header[1] := eventType;
      header[2] := eventSequenceNumber / 0x100_0000;
      header[3] := (eventSequenceNumber / 0x1_0000) % 0x100;
      header[4] := (eventSequenceNumber / 0x100) % 0x100;
      header[5] := eventSequenceNumber % 0x100;
      header[6] := x / 0x100;
      header[7] := x % 0x100;
      header[8] := y / 0x100;
      header[9] := y % 0x100;
      header[10] := extraData1;
      header[11] := extraData2;
      packet := header[..];
      assert packet == [VERSION, eventType] + EncodeU32BE(eventSequenceNumber)
        + EncodeU16BE(x) + EncodeU16BE(y) + [extraData1, extraData2];
    }

    /** A move: type 0xA1, both extra bytes 0. The packet is what is handed
        to the connection. */
    method SendCursorMovePacket(x: u16, y: u16) returns (packet: Bytes)
      ensures packet == EncodeCursor(CursorPacket(Move, eventSequenceNumber, x, y))
      ensures DecodeCursor(packet) == Some(CursorPacket(Move, eventSequenceNumber, x, y))
    {
      packet := CreateCursorPacket(MOVE_TYPE, x, y, 0x00, 0x00);
      DecodeEncodeCursor(CursorPacket(Move, eventSequenceNumber, x, y));
    }

    /** A button release: type 0xA2, the button number in byte 10; the
        conversion of the button to a byte traps outside 0 .. 255. */
    method SendCursorButtonUpPacket(x: u16, y: u16, button: int) returns (packet: Bytes)
      requires 0 <= button < 0x100
      ensures packet == EncodeCursor(CursorPacket(ButtonUp(button), eventSequenceNumber, x, y))
      ensures DecodeCursor(packet) == Some(CursorPacket(ButtonUp(button), eventSequenceNumber, x, y))
    {
      packet := CreateCursorPacket(BUTTON_UP_TYPE, x, y, button, 0x00);
      DecodeEncodeCursor(CursorPacket(ButtonUp(button), eventSequenceNumber, x, y));
    }

    /** A button press: type 0xA3, the button number in byte 10; the
        conversion of the button to a byte traps outside 0 .. 255. */
    method SendCursorButtonDownPacket(x: u16, y: u16, button: int) returns (packet: Bytes)
      requires 0 <= button < 0x100
      ensures packet == EncodeCursor(CursorPacket(ButtonDown(button), eventSequenceNumber, x, y))
      ensures DecodeCursor(packet) == Some(CursorPacket(ButtonDown(button), eventSequenceNumber, x, y))
    {
      packet := CreateCursorPacket(BUTTON_DOWN_TYPE, x, y, button, 0x00);
      DecodeEncodeCursor(CursorPacket(ButtonDown(button), eventSequenceNumber, x, y));
    }
  }

  /** One input from the view: an event and the scaled cursor position. */
  datatype CursorInput = CursorInput(event: CursorEvent, x: u16, y: u16)

  /** The view model's handlers: each input goes to the send method for its
      event kind. */
  method HandleCursorInput(sender: EventSender, input: CursorInput) returns (packet: Bytes)
    ensures DecodeCursor(packet) ==
      Some(CursorPacket(input.event, sender.eventSequenceNumber, input.x, input.y))
  {
    match input.event {
      case Move =>
        packet := sender.SendCursorMovePacket(input.x, input.y);
      case ButtonUp(b) =>
        packet := sender.SendCursorButtonUpPacket(input.x, input.y, b);
      case ButtonDown(b) =>
        packet := sender.SendCursorButtonDownPacket(input.x, input.y, b);
    }
  }

  /** One sender for the whole session, one send per input: every packet
      decodes to its input with sequence 0, because the counter is never
      advanced. */
  method SendSession(inputs: seq<CursorInput>) returns (packets: seq<Bytes>)
    ensures |packets| == |inputs|
    ensures forall i :: 0 <= i < |inputs| ==>
      DecodeCursor(packets[i]) == Some(CursorPacket(inputs[i].event, 0, inputs[i].x, inputs[i].y))
  {
    var sender := new EventSender();
    packets := [];
    for i := 0 to |inputs|
      invariant sender.eventSequenceNumber == 0
      invariant |packets| == i
      invariant forall j :: 0 <= j < i ==>
        DecodeCursor(packets[j]) == Some(CursorPacket(inputs[j].event, 0, inputs[j].x, inputs[j].y))
    {
      var packet := HandleCursorInput(sender, inputs[i]);
      packets := packets + [packet];
    }
  }
}
