/**
  The command/response exchange of `FelicaReader.sendCommand`: one write of
  the command, one read that must decode to an ACK, one read of the reply,
  and the check that the reply answers the command that was sent.

  The frame encoder and decoder are not part of this model. A write is
  recorded with the payload handed to the encoder, and a read yields a frame
  that is already decoded. The USB transport is a `Script`: the outcome of
  the write and of each of the two reads, fixed in advance.
 */
module Commands {
  import opened Bytes
  import opened Wrappers

  /** Address byte in front of every host-to-reader command. */
  const HostAddress: byte := 0xD6

  /** Address byte in front of every reader-to-host reply. */
  const ReaderAddress: byte := 0xD7

  /** The frame type the decoder reports. */
  datatype FrameType = AckType | DataType

  /** A decoded frame: its type and its data field. */
  datatype Frame = Frame(kind: FrameType, data: seq<byte>)

  /** An opaque USB pipe handle. */
  datatype Pipe = Pipe(id: nat)

  /** What one read submission produces: a decoded frame, or a `UsbException`. */
  datatype ReadOutcome = Delivered(frame: Frame) | ReadFails

  /**
    The transport's behaviour for one exchange: whether the write completes
    and what each read would produce. A read that is never issued is never
    consulted.
   */
  datatype Script = Script(writeOk: bool, first: ReadOutcome, second: ReadOutcome)

  /** One submission on a pipe. A write carries the payload given to the encoder. */
  datatype Io = Write(pipe: Pipe, payload: seq<byte>) | Read(pipe: Pipe)

  /** What an exchange returns (`None` for Java's `null`) and the submissions it made. */
  datatype Exchange = Exchange(reply: Option<seq<byte>>, trace: seq<Io>)

  /** The reader with its own pair of pipes, used by the short overloads. */
  datatype Reader = Reader(inPipe: Pipe, outPipe: Pipe)

  /** The bytes handed to the frame encoder for a command. */
  function CommandPayload(code: byte, data: seq<byte>): (p: seq<byte>)
    ensures |p| == 2 + |data|
    ensures p[0] == HostAddress && p[1] == code && p[2..] == data
  {
    [HostAddress, code] + data
  }

  /**
    The reply check can read the bytes it compares: byte 0 always, and byte 1
    when byte 0 is the reader address (Java's `&&` does not evaluate the
    second test otherwise). Shorter data makes Java throw.
   */
  predicate Indexable(data: seq<byte>)
  {
    |data| >= 1 && (data[0] == ReaderAddress ==> |data| >= 2)
  }

  /** The exchange stays inside Java's defined behaviour: a second frame that is read is indexable. */
  predicate Defined(s: Script)
  {
    s.writeOk && s.first.Delivered? && s.first.frame.kind == AckType && s.second.Delivered?
    ==> Indexable(s.second.frame.data)
  }

  /**
    The reply correlates with command `code`. Both sides are widened to Java
    `int` before the comparison, so `code + 1` does not wrap.
   */
  predicate Correlates(code: byte, data: seq<byte>)
    requires Indexable(data)
  {
    data[0] == ReaderAddress && Signed(data[1]) == Signed(code) + 1
  }

  /** The full `sendCommand`: explicit pipes, a command code and its data. */
  function SendCommand(inPipe: Pipe, outPipe: Pipe, code: byte, data: seq<byte>, s: Script): (x: Exchange)
    requires Defined(s)
    // exactly one write, first, carrying [0xD6, code] ++ data; then only reads, at most two
    ensures 1 <= |x.trace| <= 3
    ensures x.trace[0] == Write(outPipe, [HostAddress, code] + data)
    ensures forall i :: 1 <= i < |x.trace| ==> x.trace[i] == Read(inPipe)
    // a read is issued only after the write completed
    ensures |x.trace| >= 2 <==> s.writeOk
    // the second read happens exactly when the first frame was an ACK
    ensures |x.trace| == 3 <==> s.writeOk && s.first.Delivered? && s.first.frame.kind == AckType
    // a reply comes back exactly when the ACK was followed by a correlating frame
    ensures x.reply.Some? <==>
              s.writeOk && s.first.Delivered? && s.first.frame.kind == AckType
              && s.second.Delivered? && Correlates(code, s.second.frame.data)
    ensures x.reply.Some? ==> |s.second.frame.data| >= 2 && x.reply.value == s.second.frame.data[2..]
  {
    var write := Write(outPipe, CommandPayload(code, data));
    if !s.writeOk then
      Exchange(None, [write])
    else if !s.first.Delivered? || s.first.frame.kind != AckType then
      Exchange(None, [write, Read(inPipe)])
    else if s.second.Delivered? && Correlates(code, s.second.frame.data) then
      Exchange(Some(s.second.frame.data[2..]), [write, Read(inPipe), Read(inPipe)])
    else
      Exchange(None, [write, Read(inPipe), Read(inPipe)])
  }

  /** `sendCommand(code)`: the reader's own pipes and no data. */
  function SendCode(r: Reader, code: byte, s: Script): (x: Exchange)
    requires Defined(s)
    ensures x == SendCommand(r.inPipe, r.outPipe, code, [], s)
    ensures x.trace[0] == Write(r.outPipe, [HostAddress, code])
  {
    SendCommand(r.inPipe, r.outPipe, code, [], s)
  }

  /** `sendCommand(code, data)`: the reader's own pipes. */
  function SendWithData(r: Reader, code: byte, data: seq<byte>, s: Script): (x: Exchange)
    requires Defined(s)
    ensures x == SendCommand(r.inPipe, r.outPipe, code, data, s)
    ensures x.trace[0] == Write(r.outPipe, CommandPayload(code, data))
  {
    SendCommand(r.inPipe, r.outPipe, code, data, s)
  }

  /** `sendCommand(inPipe, outPipe, code)`: given pipes and no data. */
  function SendOnPipes(inPipe: Pipe, outPipe: Pipe, code: byte, s: Script): (x: Exchange)
    requires Defined(s)
    ensures x == SendCommand(inPipe, outPipe, code, [], s)
    ensures x.trace[0] == Write(outPipe, [HostAddress, code])
  {
    SendCommand(inPipe, outPipe, code, [], s)
  }

  /**
    The signed comparison, read on raw bytes: a reply byte answers `code`
    exactly when it is `code + 1` modulo 256, except that nothing answers
    0x7F, whose successor 128 is not a signed byte value.
   */
  lemma CorrelatesOnRawBytes(code: byte, data: seq<byte>)
    requires Indexable(data)
    ensures Correlates(code, data) <==>
              data[0] == ReaderAddress && code != 0x7F && data[1] == (code + 1) % 0x100
  {
  }

  /** Command 0x7F never gets a reply, whatever the reader sends back. */
  lemma NoReplyToCode7F(inPipe: Pipe, outPipe: Pipe, data: seq<byte>, s: Script)
    requires Defined(s)
    ensures SendCommand(inPipe, outPipe, 0x7F, data, s).reply == None
  {
  }

  /** Command 0xFF is answered by a reply whose code byte is 0x00. */
  lemma CodeFFAnsweredByZero(data: seq<byte>)
    requires |data| >= 2 && data[0] == ReaderAddress
    ensures Correlates(0xFF, data) <==> data[1] == 0x00
  {
  }

  /**
    Round trip: when the reader acknowledges and then answers with the reader
    address, the incremented code and some result bytes, the exchange returns
    exactly those result bytes.
   */
  lemma AnsweredCommandReturnsResult(inPipe: Pipe, outPipe: Pipe, code: byte, data: seq<byte>,
                                     ack: seq<byte>, kind: FrameType, result: seq<byte>)
    requires code != 0x7F
    ensures var answer := [ReaderAddress, (code + 1) % 0x100] + result;
            var s := Script(true, Delivered(Frame(AckType, ack)), Delivered(Frame(kind, answer)));
            Defined(s) && SendCommand(inPipe, outPipe, code, data, s).reply == Some(result)
  {
  }

  /** A transport failure at any submission yields `null` and no data. */
  lemma TransportFailureYieldsNull(inPipe: Pipe, outPipe: Pipe, code: byte, data: seq<byte>, s: Script)
    requires Defined(s)
    requires !s.writeOk || s.first.ReadFails? || s.second.ReadFails?
    ensures SendCommand(inPipe, outPipe, code, data, s).reply == None
  {
  }
}
