# felica-reader: command exchange, device search and card polling in Dafny

A model of the decision logic of a small Java program that drives a Sony
FeliCa USB reader and prints the IDm and PMm of the first Type-F card it
sees. Four parts are modelled, each as pure functions or short methods over
byte sequences:

- **Command exchange** (`Commands`, from `FelicaReader.sendCommand`). The host
  hands `[0xD6, code] ++ data` to the frame encoder and writes it. It then
  reads one frame, which must decode as an ACK, and reads a second frame. The
  reply is accepted only when the second frame's data starts with `0xD7` and
  `code + 1`; the result is then that data from offset 2. Every other path
  returns `null`, modelled as `None`. The comparison is done on Java `int`s
  widened from signed bytes, so `code + 1` never wraps. As a result command
  `0x7F` can never get a reply, and `0xFF` is answered by `0x00`.
- **Device search** (`DeviceSearch`, from `FelicaReader.findDevice`). The hub
  tree is a rose tree, and the search returns the first device in pre-order
  whose vendor and product ids match. The ids are Java `short`s, so an id of
  `0x8000` or above reads as negative.
- **Endpoint split** (`Endpoints`, from the `FelicaReader` constructor). An
  endpoint address with bit `0x80` set is IN and one with it clear is OUT.
  When several endpoints share a direction, the last one wins.
- **Card polling** (`Polling`, from `Main.main`). The program sends seven set-up
  commands and reads the firmware and PD-data versions as signed bytes. It
  then polls with the same in-comm-RF command. A reply of exactly
  `80 00 00 00` is "Type A or B". A reply with `0x14, 0x01` at indices 5 and 6
  is Type F: its IDm is bytes 7..15 and its PMm is bytes 15..23, cut with
  `Arrays.copyOfRange`, which pads with zeros past the end of the reply. The
  loop stops at the first Type-F reply.

The transport is a parameter. A `Commands.Script` fixes, for one exchange,
whether the write completes and what each of the two reads delivers: a
decoded frame or a `UsbException`. The frame decoder is not part of this
model, so a delivered frame is already decoded (its type and its data field).
The chipset's command code values are not part of this model either; they are
the fields of a `Polling.ChipsetCodes` parameter.

Three points of the code's behaviour matter for reading the model:

- `sendCommand` returns `null` on every failure path. These are a failed write,
  a failed read, a first frame that is not an ACK, and a reply that does not
  correlate. The model returns `None` for all of them.
- The Type A/B test is `Arrays.equals`, so the length counts: only a reply of
  exactly the four bytes `80 00 00 00` is Type A/B.
- The first frame is decoded from the buffer that was just read into. The
  second frame comes from a fresh buffer and a second read.

## Model

| member | source | states |
|---|---|---|
| Commands.CommandPayload | src/main/java/com/leviwaiu/FelicaReader.java:98 | the encoder receives the host address, the code and then the data unchanged, `2 + |data|` bytes in all |
| Commands.SendCommand | src/main/java/com/leviwaiu/FelicaReader.java:93-121 | exactly one write comes first and carries `[0xD6, code] ++ data`; it is followed by reads only, at most two; no read is issued after a failed write; a second read happens iff the first frame was an ACK; a reply is returned iff the ACK was followed by a correlating frame, and it is then exactly that frame's data from offset 2 |
| Commands.SendCode | src/main/java/com/leviwaiu/FelicaReader.java:83-85 | `sendCommand(code)` is the full form on the reader's own pipes with empty data, so it writes just `[0xD6, code]` |
| Commands.SendWithData | src/main/java/com/leviwaiu/FelicaReader.java:86-88 | `sendCommand(code, data)` is the full form on the reader's own pipes |
| Commands.SendOnPipes | src/main/java/com/leviwaiu/FelicaReader.java:89-91 | `sendCommand(in, out, code)` is the full form with empty data |
| Commands.CorrelatesOnRawBytes | src/main/java/com/leviwaiu/FelicaReader.java:108 | on raw bytes, the signed-int correlation test holds iff byte 0 is `0xD7`, the code is not `0x7F`, and byte 1 is `code + 1` modulo 256 (both directions) |
| Commands.NoReplyToCode7F | src/main/java/com/leviwaiu/FelicaReader.java:108 | command `0x7F` returns `null` on every transport behaviour |
| Commands.CodeFFAnsweredByZero | src/main/java/com/leviwaiu/FelicaReader.java:108 | for command `0xFF`, a reply starting `0xD7` correlates iff its byte 1 is `0x00` |
| Commands.AnsweredCommandReturnsResult | src/main/java/com/leviwaiu/FelicaReader.java:103-110 | round trip: after an ACK, a reply `[0xD7, code + 1] ++ result` gives back exactly `result`, for every code except `0x7F` |
| Commands.TransportFailureYieldsNull | src/main/java/com/leviwaiu/FelicaReader.java:116-120 | a `UsbException` on the write or on either read yields `null`, never partial data |
| DeviceSearch.FindDevice | src/main/java/com/leviwaiu/FelicaReader.java:123-134 | the result equals the first match in the pre-order listing of the hub's subtrees, where each device precedes the devices attached to it; a found device matches both ids and lies in the tree; `null` iff no device in the tree matches |
| Endpoints.DirectionByRange | src/main/java/com/leviwaiu/FelicaReader.java:52-54 | the `0x80` mask test calls an address IN iff it is at least `0x80`, and OUT iff it is not IN |
| Endpoints.SelectEndpoints | src/main/java/com/leviwaiu/FelicaReader.java:46-57 | the chosen IN endpoint has bit `0x80` set and no later endpoint does; the chosen OUT endpoint has the bit clear and no later endpoint does; a direction is left `null` iff no endpoint has it |
| Bytes.CopyOfRange | src/main/java/com/leviwaiu/Main.java:44-45 | `Arrays.copyOfRange` yields `to - from` bytes: the source bytes where they exist and zeros past the end |
| Polling.ReadVersion | src/main/java/com/leviwaiu/Main.java:22-26 | the major part is byte 1 and the minor part is byte 0, each the signed value of that byte (within -128..127 and equal to the byte modulo 256) |
| Polling.SmallVersionBytesPrintAsIs | src/main/java/com/leviwaiu/Main.java:23 | version bytes below `0x80` print as their raw values |
| Polling.Classify | src/main/java/com/leviwaiu/Main.java:39-45 | Type A/B iff the reply is exactly `80 00 00 00`; Type F iff it is not that reply and has `0x14, 0x01` at indices 5 and 6; a Type-F IDm is bytes 7..15 and PMm is bytes 15..23, both 8 bytes, zero-padded past the end |
| Polling.SixByteReplyIsUnrecognised | src/main/java/com/leviwaiu/Main.java:43 | a six-byte reply whose byte 5 is not `0x14` is read without an exception, because `&&` never reads byte 6; it is neither Type A/B nor Type F, so polling goes on |
| Polling.FullReplyCardSlices | src/main/java/com/leviwaiu/Main.java:44-45 | for a Type-F reply of at least 23 bytes, IDm and PMm are the adjacent slices `[7..15)` and `[15..23)`, and together they make up `[7..23)` |
| Polling.CardRoundTrip | src/main/java/com/leviwaiu/Main.java:43-45 | round trip: a reply made of a 7-byte header with the Type-F signature, then a card's IDm and PMm, then anything, classifies as that card |
| Polling.PollStep | src/main/java/com/leviwaiu/Main.java:39-48 | the loop ends iff the reply is Type F, and then it carries that reply's card; any other reply leaves the loop polling |
| Polling.RunSetup | src/main/java/com/leviwaiu/Main.java:21-32 | the seven set-up commands are issued in the fixed order (set-command-type `[01]`, get-firmware, get-PD-data, switch-RF `[00]`, in-set-RF, long in-set-protocol, in-set-protocol `[00 18]`); the i-th exchange is the one the i-th transport script produces; the firmware and PD-data versions are read, as signed bytes 1 and 0, from the replies to the get-firmware and get-PD-data exchanges |
| Polling.SetupWritesInOrder | src/main/java/com/leviwaiu/Main.java:21-32 | the set-up writes reach the reader's out-pipe as `[0xD6, code] ++ data` in that fixed order; each exchange reads only if its own write completed; only reads on the in-pipe follow each write |
| Polling.PollExchange | src/main/java/com/leviwaiu/Main.java:38 | every poll is the `sendCommand(code, data)` exchange of in-comm-RF on the reader's pipes, so its reply is that exchange's correlated result; it writes the fixed payload `6e 00 06 00 ff ff 01 00` |
| Polling.PollLoop | src/main/java/com/leviwaiu/Main.java:36-51 | every iteration sends the same in-comm-RF command; the loop stops exactly at the first Type-F reply, with the card cut from it; until then no reply was Type F; if the supplied scripts run out first, it is still polling and no reply was Type F |

## Left out

- Frame encoding and decoding (preamble, length and checksum bytes, the ACK literal): `Frame` is not part of this model. Writes record the payload given to the encoder, and reads deliver frames that are already decoded.
- The numeric values of the chipset command codes: `Chipset` is not part of this model, so the codes are a parameter.
- USB set-up and teardown (libusb context, opening the device, claiming the interface, opening and closing pipes, the ACK written by `open()`), and `setInPipe`, `setOutPipe`, `getManufacturer` and `getProduct`: these are I/O glue or plain field access with no decision logic.
- Printing, hex formatting, `Thread.sleep(250)` and stack traces: output and timing only.
- Java exceptions other than `UsbException` are preconditions, not modelled paths. `Commands.Defined` covers the index error on a short second frame. `Polling.Classifiable` covers a poll reply that is not the Type A/B reply and lacks a byte the test reads: byte 5 always, byte 6 only after byte 5 is `0x14`, and a Type-F reply must reach byte 15. `Polling.SetupDefined` covers short version replies and a missing set-up reply that is dereferenced. `Polling.PollDefined` covers a missing poll reply.
- The constructor's pipe assignment (`FelicaReader.java:59-60`) and its catch-all `catch (Exception e)` (`FelicaReader.java:62-64`) are left out. If there is no OUT endpoint, `FelicaReader.java:59` throws a `NullPointerException` and both pipes stay `null`. If only the IN endpoint is missing, `FelicaReader.java:59` sets `outPipe` and `FelicaReader.java:60` throws, so only `inPipe` stays `null`. The catch-all swallows the exception in both cases. `Endpoints.SelectEndpoints` reports a missing direction as `None`.
- Polling.PollLoop: the program polls forever; the model runs over a finite sequence of per-iteration transport scripts and reports "still polling" when they run out.
- Read timeouts: the transport's blocking read is an outcome in the script; the program sets no timeout of its own.
