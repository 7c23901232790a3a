/** The host's view of the smart-card link: command descriptions handed to
    apdu_build_command, the opaque commands it produces, the transport that
    carries them, and the receive buffer replies are copied into. */
module Apdu {
  import opened Bytes
  import opened Layout

  /** The command cases of ISO/IEC 7816-3 (short length fields): no data either way,
      data received only, data sent only, data both ways. */
  datatype ApduCase = Case1 | Case2S | Case3S | Case4S

  /** The arguments of one apdu_build_command call. `data` holds the `lc` bytes the
      builder reads from the data buffer. */
  datatype CommandSpec = CommandSpec(kind: ApduCase, cla: byte, ins: byte, p1: byte, p2: byte,
                                     lc: byte, data: seq<byte>, le: byte)

  /** An encoded command as it leaves the host; its byte encoding is the builder's concern. */
  type Command = seq<byte>

  /** A negative return value of sc_transmit_data. */
  type TransportError = r: int | r < 0 witness -1

  /** What sc_transmit_data reports: a reply frame, or a negative error code. */
  datatype Reply = Received(frame: Frame) | Failed(code: TransportError)

  /** The application's class and instruction bytes; their values are defined
      outside this model. */
  datatype AppCodes = AppCodes(cla: byte, insSetUserIdentifierIssuerSignature: byte, insComputeProofOfKey: byte)

  /** Everything the host-side functions reach through the reader:
      - `build` is apdu_build_command, which either yields a command or fails;
      - `transmit` is the card behind sc_transmit_data, given every command sent
        on this channel so far, the current one last (the card is stateful);
      - `assertsEnabled` is false when the host is compiled with NDEBUG. */
  datatype Host = Host(codes: AppCodes, build: CommandSpec -> Option<Command>,
                       transmit: seq<Command> -> Reply, assertsEnabled: bool)

  /** Status byte SW1 = 0x61: the command succeeded and SW2 more bytes are available
      (ISO/IEC 7816-4:2005, section 5.1.3). */
  const SW1_MORE_DATA: byte := 0x61

  /** GET RESPONSE (ISO/IEC 7816-4:2005, section 7.6.1): CLA 0x00, INS 0xC0,
      P1 = P2 = 0, no data, Le = the number of pending bytes. */
  function GetResponse(le: byte): (spec: CommandSpec)
    ensures spec.kind == Case2S && spec.cla == 0x00 && spec.ins == 0xC0
    ensures spec.p1 == 0 && spec.p2 == 0 && spec.lc == 0 && spec.data == []
    ensures spec.le == le
  {
    CommandSpec(Case2S, 0x00, 0xC0, 0x00, 0x00, 0, [], le)
  }

  /** sc_transmit_data copies a reply frame to the start of the receive buffer;
      the bytes behind it keep what the buffer held before. */
  function Receive(buf: seq<byte>, frame: Frame): (r: seq<byte>)
    requires |buf| == MAX_APDU_LENGTH_T0
    ensures |r| == MAX_APDU_LENGTH_T0
    ensures r[..|frame|] == frame
    ensures forall i :: |frame| <= i < MAX_APDU_LENGTH_T0 ==> r[i] == buf[i]
  {
    Write(buf, 0, frame)
  }

  /** The receive buffer after the first reply of an exchange (it starts zeroed). */
  function FirstReceive(frame: Frame): (r: seq<byte>)
    ensures |r| == MAX_APDU_LENGTH_T0
    ensures forall i :: 0 <= i < MAX_APDU_LENGTH_T0 ==> r[i] == (if i < |frame| then frame[i] else 0)
  {
    Receive(Zeros(MAX_APDU_LENGTH_T0), frame)
  }
}
