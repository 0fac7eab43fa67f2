/**
  The card-reading program of `Main.main`: seven set-up commands, the two
  version reads, then the polling loop that sends the same RF command until a
  Type-F card answers, and cuts the card's IDm and PMm out of its reply.

  The chipset's command code values are not part of this model; they are
  the fields of a `ChipsetCodes` parameter, so every property holds for any
  assignment of codes.
 */
module Polling {
  import opened Bytes
  import opened Wrappers
  import opened Commands

  /** The chipset command codes the program uses. */
  datatype ChipsetCodes = ChipsetCodes(
    setCommandType: byte,
    getFirmwareVersion: byte,
    getPdDataVersion: byte,
    switchRf: byte,
    inSetRf: byte,
    inSetProtocol: byte,
    inCommRf: byte)

  /** Data of the long in-set-protocol command. */
  const ProtocolSettings: seq<byte> :=
    [0x00, 0x18, 0x01, 0x01, 0x02, 0x01, 0x03, 0x00, 0x04, 0x00, 0x05, 0x00, 0x06, 0x00, 0x07, 0x08,
     0x08, 0x00, 0x09, 0x00, 0x0a, 0x00, 0x0b, 0x00, 0x0c, 0x00, 0x0e, 0x04, 0x0f, 0x00, 0x10, 0x00,
     0x11, 0x00, 0x12, 0x00, 0x13, 0x06]

  /** Data of the in-comm-RF command sent on every poll. */
  const PollData: seq<byte> := [0x6e, 0x00, 0x06, 0x00, 0xff, 0xff, 0x01, 0x00]

  /** The exact reply the program labels "Type A or B". */
  const TypeABReply: seq<byte> := [0x80, 0x00, 0x00, 0x00]

  /** A version as the program prints it: `major.minor`, each a Java `byte` printed with `%d`. */
  datatype Version = Version(major: int, minor: int)

  /** The identifiers of a Type-F card. */
  datatype Card = Card(idm: seq<byte>, pmm: seq<byte>)

  /** How the program reads a poll reply. */
  datatype Class = TypeAOrB | TypeF(card: Card) | Unrecognised

  /** The state of the poll loop: still polling (`isLoop` true), or a card found. */
  datatype LoopState = Polling | Found(card: Card)

  /** Byte 1 is the major part and byte 0 the minor part, each read as a signed Java byte. */
  function ReadVersion(reply: seq<byte>): (v: Version)
    requires |reply| >= 2
    ensures -0x80 <= v.major < 0x80 && -0x80 <= v.minor < 0x80
    ensures (v.major + 0x100) % 0x100 == reply[1] && (v.minor + 0x100) % 0x100 == reply[0]
  {
    Version(Signed(reply[1]), Signed(reply[0]))
  }

  /** For version bytes below 0x80 the printed parts are the raw bytes. */
  lemma SmallVersionBytesPrintAsIs(reply: seq<byte>)
    requires |reply| >= 2 && reply[0] < 0x80 && reply[1] < 0x80
    ensures ReadVersion(reply) == Version(reply[1], reply[0])
  {
  }

  /** The Type-F signature: not the Type A/B reply, byte 5 is 0x14 and byte 6 is 0x01. */
  predicate IsTypeF(reply: seq<byte>)
  {
    reply != TypeABReply && |reply| >= 7 && reply[5] == 0x14 && reply[6] == 0x01
  }

  /**
    The reply lies inside the classification's defined behaviour. Unless it
    is the Type A/B reply, byte 5 must exist; byte 6 is read only when byte 5
    is 0x14 (Java's `&&` stops early otherwise); and a Type-F reply must reach
    byte 15, where the PMm copy starts. Java throws in every other case.
   */
  predicate Classifiable(reply: seq<byte>)
  {
    || reply == TypeABReply
    || (&& |reply| >= 6
        && (reply[5] == 0x14 ==> |reply| >= 7)
        && (IsTypeF(reply) ==> |reply| >= 15))
  }

  /** A reply of six bytes whose byte 5 is not 0x14 is read without an exception and is not Type F. */
  lemma SixByteReplyIsUnrecognised(reply: seq<byte>)
    requires |reply| == 6 && reply[5] != 0x14
    ensures Classifiable(reply)
    ensures Classify(reply) == Unrecognised
  {
  }

  /** The classification of one poll reply, with IDm and PMm cut out of a Type-F reply. */
  function Classify(reply: seq<byte>): (c: Class)
    requires Classifiable(reply)
    ensures c.TypeAOrB? <==> reply == TypeABReply
    ensures c.TypeF? <==> IsTypeF(reply)
    ensures c.TypeF? ==> |c.card.idm| == 8 && |c.card.pmm| == 8
    ensures c.TypeF? ==> forall i :: 0 <= i < 8 ==>
              c.card.idm[i] == reply[7 + i]
              && c.card.pmm[i] == (if 15 + i < |reply| then reply[15 + i] else 0)
  {
    if reply == TypeABReply then TypeAOrB
    else if reply[5] == 0x14 && reply[6] == 0x01 then
      TypeF(Card(CopyOfRange(reply, 7, 15), CopyOfRange(reply, 15, 23)))
    else Unrecognised
  }

  /** A reply that reaches byte 23 yields IDm and PMm as its adjacent slices 7..15 and 15..23. */
  lemma FullReplyCardSlices(reply: seq<byte>)
    requires IsTypeF(reply) && |reply| >= 23
    ensures Classifiable(reply)
    ensures Classify(reply) == TypeF(Card(reply[7..15], reply[15..23]))
    ensures Classify(reply).card.idm + Classify(reply).card.pmm == reply[7..23]
  {
    CopyOfRangeInBounds(reply, 7, 15);
    CopyOfRangeInBounds(reply, 15, 23);
  }

  /**
    Round trip: a reply built from a seven-byte header carrying the Type-F
    signature, a card's IDm and PMm and any trailing bytes classifies as that
    very card.
   */
  lemma CardRoundTrip(header: seq<byte>, card: Card, trailer: seq<byte>)
    requires |header| == 7 && header[5] == 0x14 && header[6] == 0x01
    requires |card.idm| == 8 && |card.pmm| == 8
    ensures Classifiable(header + card.idm + card.pmm + trailer)
    ensures Classify(header + card.idm + card.pmm + trailer) == TypeF(card)
  {
  }

  /** One pass of the loop body: a Type-F reply ends the loop, any other reply leaves it polling. */
  function PollStep(reply: seq<byte>): (next: LoopState)
    requires Classifiable(reply)
    ensures next.Polling? <==> !IsTypeF(reply)
    ensures next.Found? ==> Classify(reply) == TypeF(next.card)
  {
    match Classify(reply)
    case TypeF(card) => Found(card)
    case _ => Polling
  }

  /** The set-up replies the program dereferences are present and long enough, and every exchange is defined. */
  predicate SetupDefined(rd: Reader, c: ChipsetCodes, scripts: seq<Script>)
  {
    && |scripts| == 7
    && (forall i :: 0 <= i < 7 ==> Defined(scripts[i]))
    && var firmware := SendCode(rd, c.getFirmwareVersion, scripts[1]).reply;
       var pdData := SendCode(rd, c.getPdDataVersion, scripts[2]).reply;
       firmware.Some? && |firmware.value| >= 2 && pdData.Some? && |pdData.value| >= 2
  }

  /** What the set-up phase leaves behind: its seven exchanges, in order, and the two versions. */
  datatype Setup = Setup(exchanges: seq<Exchange>, firmware: Version, pdData: Version)

  /**
    The set-up phase: set-command-type, get-firmware, get-PD-data, switch-RF,
    in-set-RF, and in-set-protocol twice. Each command consumes one script.
   */
  function RunSetup(rd: Reader, c: ChipsetCodes, scripts: seq<Script>): (r: Setup)
    requires SetupDefined(rd, c, scripts)
    ensures |r.exchanges| == 7
    // each exchange is the one its own script produces, in call order
    ensures r.exchanges[0] == SendWithData(rd, c.setCommandType, [0x01], scripts[0])
    ensures r.exchanges[1] == SendCode(rd, c.getFirmwareVersion, scripts[1])
    ensures r.exchanges[2] == SendCode(rd, c.getPdDataVersion, scripts[2])
    ensures r.exchanges[3] == SendWithData(rd, c.switchRf, [0x00], scripts[3])
    ensures r.exchanges[4] == SendWithData(rd, c.inSetRf, [0x01, 0x01, 0x0f, 0x01], scripts[4])
    ensures r.exchanges[5] == SendWithData(rd, c.inSetProtocol, ProtocolSettings, scripts[5])
    ensures r.exchanges[6] == SendWithData(rd, c.inSetProtocol, [0x00, 0x18], scripts[6])
    ensures r.exchanges[1].reply.Some? && |r.exchanges[1].reply.value| >= 2
    ensures r.firmware.major == Signed(r.exchanges[1].reply.value[1])
    ensures r.firmware.minor == Signed(r.exchanges[1].reply.value[0])
    ensures r.exchanges[2].reply.Some? && |r.exchanges[2].reply.value| >= 2
    ensures r.pdData.major == Signed(r.exchanges[2].reply.value[1])
    ensures r.pdData.minor == Signed(r.exchanges[2].reply.value[0])
  {
    var x0 := SendWithData(rd, c.setCommandType, [0x01], scripts[0]);
    var x1 := SendCode(rd, c.getFirmwareVersion, scripts[1]);
    var x2 := SendCode(rd, c.getPdDataVersion, scripts[2]);
    var x3 := SendWithData(rd, c.switchRf, [0x00], scripts[3]);
    var x4 := SendWithData(rd, c.inSetRf, [0x01, 0x01, 0x0f, 0x01], scripts[4]);
    var x5 := SendWithData(rd, c.inSetProtocol, ProtocolSettings, scripts[5]);
    var x6 := SendWithData(rd, c.inSetProtocol, [0x00, 0x18], scripts[6]);
    Setup([x0, x1, x2, x3, x4, x5, x6], ReadVersion(x1.reply.value), ReadVersion(x2.reply.value))
  }

  /**
    The writes and reads of the set-up phase: the seven commands reach the
    reader's out-pipe in the fixed order, each exchange reads only when its
    own write completed, and only reads on the in-pipe follow each write.
   */
  lemma SetupWritesInOrder(rd: Reader, c: ChipsetCodes, scripts: seq<Script>)
    requires SetupDefined(rd, c, scripts)
    ensures forall i :: 0 <= i < 7 ==> (|RunSetup(rd, c, scripts).exchanges[i].trace| >= 2 <==> scripts[i].writeOk)
    ensures forall i :: 0 <= i < 7 ==> 1 <= |RunSetup(rd, c, scripts).exchanges[i].trace| <= 3
    ensures RunSetup(rd, c, scripts).exchanges[0].trace[0] == Write(rd.outPipe, [HostAddress, c.setCommandType, 0x01])
    ensures RunSetup(rd, c, scripts).exchanges[1].trace[0] == Write(rd.outPipe, [HostAddress, c.getFirmwareVersion])
    ensures RunSetup(rd, c, scripts).exchanges[2].trace[0] == Write(rd.outPipe, [HostAddress, c.getPdDataVersion])
    ensures RunSetup(rd, c, scripts).exchanges[3].trace[0] == Write(rd.outPipe, [HostAddress, c.switchRf, 0x00])
    ensures RunSetup(rd, c, scripts).exchanges[4].trace[0] == Write(rd.outPipe, [HostAddress, c.inSetRf, 0x01, 0x01, 0x0f, 0x01])
    ensures RunSetup(rd, c, scripts).exchanges[5].trace[0] == Write(rd.outPipe, [HostAddress, c.inSetProtocol] + ProtocolSettings)
    ensures RunSetup(rd, c, scripts).exchanges[6].trace[0] == Write(rd.outPipe, [HostAddress, c.inSetProtocol, 0x00, 0x18])
    ensures forall i :: 0 <= i < 7 ==> forall k :: 1 <= k < |RunSetup(rd, c, scripts).exchanges[i].trace| ==>
              RunSetup(rd, c, scripts).exchanges[i].trace[k] == Read(rd.inPipe)
  {
  }

  /** The exchange of one poll iteration. */
  function PollExchange(rd: Reader, c: ChipsetCodes, s: Script): (x: Exchange)
    requires Defined(s)
    ensures x == SendWithData(rd, c.inCommRf, PollData, s)
    ensures 1 <= |x.trace| <= 3
    ensures x.trace[0] == Write(rd.outPipe, CommandPayload(c.inCommRf, PollData))
  {
    SendWithData(rd, c.inCommRf, PollData, s)
  }

  /**
    The poll loop stays inside Java's defined behaviour on these scripts:
    every iteration it reaches has a defined exchange whose reply is
    present and classifiable. Iterations after the first Type-F reply are
    never reached.
   */
  predicate PollDefined(rd: Reader, c: ChipsetCodes, scripts: seq<Script>)
    decreases |scripts|
  {
    scripts == [] ||
    (Defined(scripts[0]) &&
     var reply := PollExchange(rd, c, scripts[0]).reply;
     reply.Some? && Classifiable(reply.value) &&
     (!IsTypeF(reply.value) ==> PollDefined(rd, c, scripts[1..])))
  }

  /**
    The `while (isLoop)` poll loop, run over the scripts the transport
    supplies. It stops on the first Type-F reply; when the scripts run out
    first, it is still polling.
   */
  method PollLoop(rd: Reader, c: ChipsetCodes, scripts: seq<Script>) returns (state: LoopState, sent: seq<Exchange>)
    requires PollDefined(rd, c, scripts)
    ensures 1 <= |sent| <= |scripts| || (sent == [] && scripts == [])
    ensures forall j :: 0 <= j < |sent| ==>
              Defined(scripts[j]) && sent[j] == PollExchange(rd, c, scripts[j])
              && sent[j].trace[0] == Write(rd.outPipe, [HostAddress, c.inCommRf] + PollData)
              && sent[j].reply.Some?
    ensures forall j :: 0 <= j < |sent| - 1 ==> !IsTypeF(sent[j].reply.value)
    ensures state.Found? ==>
              |sent| >= 1 && IsTypeF(sent[|sent| - 1].reply.value)
              && Classifiable(sent[|sent| - 1].reply.value)
              && Classify(sent[|sent| - 1].reply.value) == TypeF(state.card)
    ensures state.Polling? ==> |sent| == |scripts| && forall j :: 0 <= j < |sent| ==> !IsTypeF(sent[j].reply.value)
  {
    state, sent := Polling, [];
    var i := 0;
    while state.Polling? && i < |scripts|
      invariant 0 <= i <= |scripts| && |sent| == i
      invariant forall j :: 0 <= j < i ==>
                  Defined(scripts[j]) && sent[j] == PollExchange(rd, c, scripts[j]) && sent[j].reply.Some?
      invariant forall j :: 0 <= j < i - 1 ==> !IsTypeF(sent[j].reply.value)
      invariant state.Polling? ==> PollDefined(rd, c, scripts[i..])
      invariant state.Polling? && i > 0 ==> !IsTypeF(sent[i - 1].reply.value)
      invariant state.Found? ==>
                  i >= 1 && IsTypeF(sent[i - 1].reply.value) && Classifiable(sent[i - 1].reply.value)
                  && Classify(sent[i - 1].reply.value) == TypeF(state.card)
    {
      assert scripts[i..][0] == scripts[i];
      assert scripts[i..][1..] == scripts[i + 1..];
      var x := PollExchange(rd, c, scripts[i]);
      state := PollStep(x.reply.value);
      sent := sent + [x];
      i := i + 1;
    }
  }
}
