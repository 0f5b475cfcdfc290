# modesd core, modelled in Dafny

modesd reads a Mode-S/ADS-B receiver on a serial line and relays every squitter it
decodes to a list of UDP targets. This project models the core of that program:

- the **Aurora decoder** (`text.dfy`, `aurora.dfy`, module `Aurora`). It covers:
  - the five-state machine of `aurora_read`: RAW frames framed as DLE STX … DLE ETX, with every DLE in the body doubled, read one byte at a time into a 255-byte buffer;
  - the skip accounting in `struct frame`;
  - the offset checks of `parseframe`;
  - the hex rendering of `sprintmodes`, where the DF field decides between 7 and 14 bytes;
  - the reset, heartbeat wait and RAW-mode command of `aurora_init`, and `aurora_open`.
- the **microADSB decoder** of the daemon's main loop (`modesd.dfy`, module `ModesD`). It covers:
  - `readn` and `resync` over the device;
  - the fixed-offset framing of `@<timecode><squitter>;#<counter>;\n\r` spans of 40 or 54 characters, with the terminator check and the field extraction;
  - the frame and skip counters;
  - `parseudparg`'s `host:port[:protocol]` argument.
- the **UDP relay** (`udp.dfy`, module `Udp`). It covers:
  - the target list that `udp_addport` prepends to and `udp_clearports` walks;
  - `udp_send`'s length gate, its per-variant datagrams (`*XXXX;` and `AV*XXXX;`) and its count of failed targets.
- the **microADSB handshake** (`microadsb.dfy`, module `MicroAdsb`). It covers `ma_init`:
  - the reset command;
  - up to ten re-opens;
  - the firmware version check;
  - the SET_MODE command and its acknowledgement.

  It also covers `ma_open`'s tolerance of a descriptor that is not a terminal.

The serial device is a scripted transport (`Serial.Port`). It holds the bytes the device
will still deliver, and once they are used up it returns 0 (end of file) or -1 (an error),
as read(2) would.

Each system call of the initialisation dialogues is a parameter giving its outcome:
open(2), fcntl, the termios set-up, the DTR ioctls, write(2), the lines a line reader
returns, socket(2), gethostbyname, connect(2), malloc and send(2). Each dialogue
returns its result together with a trace of its effects on the device (`Posix.Effect`):
opens, writes, closes and sleeps. Three folds over a trace state what a dialogue leaves
behind:

- `OpenAfter`: the descriptors it leaves open;
- `Written`: what it wrote;
- `Opens`: how often it opened the device.

The imperative code is modelled as methods: `Aurora.Collect`, `Aurora.SprintModes`,
`ModesD.ReadN`, `ModesD.Resync`, `ModesD.Run`, `ModesD.ParseUdpArg`, the `Udp.Relay`
class and the dialogues. Each is proved against a reference function:

- `Aurora.Decode`/`Aurora.ScanBody` for the frame decoder;
- `ModesD.ResyncFrom`, `ModesD.Next` and `ModesD.RunOf` for the main loop;
- `Udp.Transmissions` and `Udp.Failures` for `udp_send`;
- `MicroAdsb.FirstReopen` for the retry loop.

The lemmas beside them relate those functions to an encoder (`Aurora.Encode`,
`ModesD.FrameText`, `ModesD.Render`, `Udp.Datagram`) and prove the round trips.

## Model

| member | source | states |
|---|---|---|
| Serial.Port.Read | src/modesd.c:20-22 | read(2) hands over the next min(max, available) bytes of the script into the buffer, touching nothing else; on an empty script it returns the end code |
| Posix.OpenReadOnly | src/microadsb.c:141-166 | the descriptor is returned iff open succeeds, the terminal set-up succeeds or fails with ENOTTY, and fcntl succeeds; every failure after the open leaves nothing open; nothing is written (aurora_open without init, src/aurora.c:115-134, is the same) |
| Octets.HexShape | src/aurora.c:150-151 | "%02X" over n bytes writes 2n characters, all upper-case hex digits |
| Octets.UnhexHex | src/aurora.c:150-151 | reading the rendered hex text back yields exactly the bytes rendered |
| Aurora.SprintModes | src/aurora.c:137-153 | the C string left in the 29-character buffer is the hex of the first 14 bytes when DF (bits 7..3 of byte 0) is 16 or more, of the first 7 otherwise |
| Aurora.Decode | src/aurora.c:230-248 | the reference state machine over the bytes read: a decided attempt reads at least one byte and never past the stream, and an abandoned one charges at most 255 |
| Aurora.ScanBody | src/aurora.c:249-280 | inside the frame, a decided attempt reads beyond the current position and never past the stream; an abandoned one charges at least the buffer index reached (body length + 3) and at most 255 |
| Aurora.ParseFrame | src/aurora.c:161-209 | parseframe accepts iff byte 1 is 0x02, byte 2 is 0x00 and the length it is handed is 36, whatever byte 0 holds, and then yields the 14 bytes at offset 21 |
| Aurora.Collect | src/aurora.c:230-280 | the framing loop reading one byte at a time ends as the reference decoder decides: dry, abandoned with the reference skip count, or closed with the unstuffed body followed by DLE ETX at buffer index 2 and the consumed bytes removed from the device |
| Aurora.Read | src/aurora.c:215-289 | aurora_read returns -1 when the device runs dry, 0 when no Mode-S frame was found (charging the reference skip count to frame.skipped, data untouched), 1 when frame.data holds the hex of the frame's squitter; it consumes exactly the bytes of the attempt |
| Aurora.Advance | src/aurora.c:233-273 | each transition of the state machine, the n-- of a doubled DLE included, agrees with the reference decoder: it lands in a state consistent with it or ends with the verdict it gives |
| Aurora.InFrameStep | src/aurora.c:249-254 | inside the frame a plain byte extends the body, and the byte that would reach index 255 abandons the attempt with 255 skipped |
| Aurora.DleStep | src/aurora.c:256-272 | after a DLE inside the frame: DLE DLE keeps one DLE, DLE ETX closes the frame, any other byte abandons it charging the buffer index |
| Aurora.Receive | src/aurora.c:282-288 | a decoded attempt carries 14 squitter bytes and never reads past the stream |
| Aurora.ScanStuffed | src/aurora.c:249-266 | inside a frame, the stuffed form of a body followed by DLE ETX is read back as that body |
| Aurora.DecodeEncode | src/aurora.c:230-274 | round trip: a body of at most 251 bytes, stuffed and framed, decodes to itself and reads exactly the frame |
| Aurora.FramedIsEncoded | src/aurora.c:230-274 | converse: whatever closes as a frame is the encoding of its body, and that body has at most 251 bytes |
| Aurora.AbandonedAccounting | src/aurora.c:233-280 | an abandoned attempt charges at most the bytes it read, strictly fewer unless the 255 bound was hit (a bad first or second byte charges 0 or 1 for 1 or 2 bytes read); no attempt reads more than 510 bytes |
| Aurora.DecidedOnPrefix | src/aurora.c:230-274 | the decoder reads only the bytes it decides on: what follows a decided attempt does not change its outcome |
| Aurora.BodyVerdict | src/aurora.c:161-209 | parseframe, handed one less than the body length, accepts exactly the 37-byte bodies with type 0x02 and subtype 0x00, whatever byte 0 holds, and then renders the 14 bytes at offset 21 |
| Aurora.FrameRoundTrip | src/aurora.c:215-289 | a 37-byte standard Mode-S body, framed and read back, is decoded to its squitter bytes; their rendering is 14 or 28 hex digits that read back to the designated bytes |
| Aurora.DecodedPayloadShape | src/aurora.c:147-151 | every decoded frame leaves 14 or 28 upper-case hex digits in frame.data |
| Aurora.ThirtySixByteBodyRejected | src/aurora.c:283-287 | a well-framed 36-byte body is not a Mode-S frame: the call returns 0 and charges no skip |
| Aurora.HeartbeatAt | src/aurora.c:76-92 | the first line that is non-empty and starts with $!MSRAHB; every earlier line is not one |
| Aurora.RawWriteErrorAccepted | src/aurora.c:94-98 | the check as written lets a write(2) error (-1) through, and agrees with the intended check on every other result |
| Aurora.Init | src/aurora.c:35-105 | the descriptor is returned iff the set-up succeeds, a heartbeat arrives before the line reader fails, and the whole RAW command is written (the corrected check); on success exactly $!MSRARAW,*00 was written and only the descriptor is open; a reader failure during the wait leaves the descriptor open, every other failure closes it |
| Aurora.Open | src/aurora.c:107-135 | with init, the outcome of aurora_init; without, a read-only open that tolerates a non-terminal; success leaves only the returned descriptor open |
| ModesD.ReadN | src/modesd.c:15-26 | readn returns the count with exactly the next count characters in the buffer, or, when the device runs dry first, read(2)'s 0 or -1 with the partial count dropped; nothing outside the requested slice changes |
| ModesD.ResyncFrom | src/modesd.c:29-51 | where resync stops is just after a ";\n\r" |
| ModesD.Resync | src/modesd.c:29-51 | resync returns the number of characters consumed through the terminator the reference scan finds, or -1 with the device drained |
| ModesD.Next | src/modesd.c:188-225 | one pass reads at least 40 characters unless the loop stops; a span starting with '@' is 54 long iff character 39 is not '\r'; a bad marker consumes 40 plus what resync charges; a decoded span ends in "\n\r" with a 12-character time code, an 8-character counter and a 14- or 28-character squitter |
| ModesD.Classify | src/modesd.c:218-225 | a span is decoded only when it ends in "\n\r" |
| ModesD.ReadFrame | src/modesd.c:189-225 | one pass over the device decides as the reference pass and consumes exactly its characters |
| ModesD.Judge | src/modesd.c:218-225 | the terminator check and the field extraction on the buffer agree with the reference classification |
| ModesD.RunOf | src/modesd.c:188-233 | the frame counter equals the number of squitters relayed |
| ModesD.Account | src/modesd.c:205-232 | a pass keeps the frame counter equal to the number of squitters relayed |
| ModesD.Run | src/modesd.c:182-233 | the main loop drains the device and ends with the frame count, the skip count and the squitters relayed that the reference totals give |
| ModesD.FrameDecodes | src/modesd.c:167-225 | round trip: a frame with the documented field widths, whose extended squitter does not put a '\r' at character 39 where the length test looks, is decoded to its own time code, counter and squitter, consuming exactly the frame |
| ModesD.CleanStream | src/modesd.c:188-233 | a stream of such frames is relayed in full and in order, with nothing skipped |
| ModesD.ResyncPassesPlain | src/modesd.c:33-39 | resync passes over characters other than ';' without stopping |
| ModesD.JunkResynced | src/modesd.c:205-211 | a span not starting with '@' is followed by resync, and only resync's count is charged, not the 40 characters read first |
| ModesD.JunkThenFrames | src/modesd.c:188-233 | behind garbage and its terminator every frame of a clean stream is relayed; the skip count is 40 short of the garbage |
| ModesD.ResyncSkipsTwo | src/modesd.c:38-48 | on every stream, after a ';' not followed by "\n\r" the two characters after it are consumed unexamined and the scan continues behind them |
| ModesD.MissedTerminator | src/modesd.c:38-48 | on every stream, a ";\n\r" whose ';' directly follows another ';' is not where resync stops |
| ModesD.NoRescan | src/modesd.c:38-48 | an instance: on ";;\n\r;\n\r" resync reads on to the second terminator, 7 characters in |
| ModesD.BadTerminatorUncounted | src/modesd.c:212-219 | a span starting with '@' whose 40 or 54 characters do not end in "\n\r" is dropped, and the totals of the stream are those of what follows it: neither counter changes |
| ModesD.AtoiDecimal | src/modesd.c:94 | atoi reads back a number written in decimal |
| ModesD.Find | src/modesd.c:84 | index(3) finds the first occurrence of the character, or reports that there is none |
| ModesD.ParseTarget | src/modesd.c:79-96 | a NULL or empty argument, or one without ':', is rejected; an accepted argument names a non-empty host without ':' and a positive port |
| ModesD.ParseAfterHost | src/modesd.c:87-106 | the port text (up to a second ':') that atoi reads as zero or less, the empty text included, is rejected; an accepted target keeps the host, which is non-empty, and carries atoi's reading of the port text as its port |
| ModesD.ParsePortOnly | src/modesd.c:88-96 | host:port is read back with the protocol defaulting to raw |
| ModesD.ParsePortAndProtocol | src/modesd.c:88-106 | host:port:protocol is read back with the protocol named |
| ModesD.UnknownProtocolRejected | src/modesd.c:97-105 | a protocol other than raw or planeplotter after the port is rejected |
| ModesD.ParseSplitsHost | src/modesd.c:83-87 | the argument is split at its first ':' |
| ModesD.ParseRender | src/modesd.c:79-106 | round trip: a host without ':' and a positive port, written with or without a protocol, parse back to the same host, port and protocol |
| ModesD.PortWraps | src/modesd.c:107 | the unchecked cast to unsigned short: port 65536 parses but becomes 0, which udp_addport rejects, while 65537 becomes port 1 |
| ModesD.ReadTarget | src/modesd.c:79-106 | parseudparg's reading of the argument (strdup, the first ':', a second ':', atoi of the port, the protocol name) reaches exactly the verdict of ParseTarget, and an accepted host holds no NUL, so udp_addport sees it whole |
| ModesD.ParseUdpArg | src/modesd.c:70-114 | parseudparg adds, at the head of the relay, the target the argument names, and returns 0 iff the argument is accepted and udp_addport succeeds; otherwise -1 with the target list unchanged |
| Udp.SnprintfAt | src/udp.c:132-134 | snprintf keeps the buffer length and returns the full length of its output |
| Udp.Snprintf | src/udp.c:132-134 | snprintf writes what fits and a NUL, as SnprintfAt describes |
| Udp.SentAsWritten | src/udp.c:124-136 | as written, the byte count handed to send(2) is the full buflen: snprintf returns the length it wanted to write, not what it wrote |
| Udp.SemicolonTruncated | src/udp.c:124-136 | as written, the bytes sent end in a NUL where the ';' belongs, so no receiver reads the datagram back |
| Udp.BuiltIsDatagram | src/udp.c:124-136 | with room for the NUL, the bytes sent are exactly *XXXX; or AV*XXXX;, whatever the buffer held before |
| Udp.ParseDatagramRoundTrip | src/udp.c:132-134 | a receiver reads back the variant and the squitter from the datagram |
| Udp.Compose | src/udp.c:120-138 | one target's datagram, built in a malloc'd buffer, is the datagram of its variant (with the corrected snprintf bound, see Findings) |
| Udp.Failures | src/udp.c:119-141 | the error count is at most the number of targets, and it is 0 iff every target succeeded |
| Udp.Transmissions | src/udp.c:119-139 | the (socket, datagram) pairs handed to send(2): at most one per target, exactly one per target when every buffer is allocated |
| Udp.OneDatagramPerTarget | src/udp.c:119-139 | when every buffer is allocated, the k-th target from the head of the list gets exactly one datagram, the k-th sent, in its own variant |
| Udp.TransmissionsReadable | src/udp.c:119-139 | at most one datagram goes out per target, and each carries the squitter readable by its receiver |
| Udp.Relay.Alloc | src/udp.c:23-45 | a node is allocated iff the host is non-empty, the port is non-zero and the allocations succeed; it holds a copy of the host and no socket |
| Udp.Relay.Free | src/udp.c:47-56 | the node is released, its socket is not closed |
| Udp.Relay.AddPort | src/udp.c:58-95 | 0 iff the arguments are acceptable and the allocation, socket, lookup and connect all succeed; then the new target is at the head of the list; otherwise the list is unchanged, but a socket opened before a failed lookup or connect stays open |
| Udp.Relay.ClearPorts | src/udp.c:97-107 | every node of the list is freed, but the list still names them and every socket stays open |
| Udp.Relay.Send | src/udp.c:109-142 | -1 and nothing sent unless the squitter is 14 or 28 characters; otherwise the datagrams sent are those of the reference, in list order, and the result is minus the number of targets that failed |
| MicroAdsb.CommandText | src/microadsb.c:97-121 | the reset literal is the RESET command #FF, the version query is #00, and the mode command is #43-32, whose first three characters are the acknowledgement expected |
| MicroAdsb.FirstReopenFrom | src/microadsb.c:72-78 | the first of the ten re-open attempts that succeeds, every earlier one having failed; none iff all ten fail |
| MicroAdsb.ResetDevice | src/microadsb.c:45-65 | the reset succeeds iff open, fcntl and the terminal set-up succeed and all 4 bytes of #FF\n are written; whatever happens, nothing stays open |
| MicroAdsb.AwaitDevice | src/microadsb.c:72-82 | the descriptor of the first successful re-open, after at most ten attempts; -1 iff all ten fail |
| MicroAdsb.CheckVersion | src/microadsb.c:84-115 | the version query is written and the reply accepted iff it starts with one of the three known firmware versions; a failure closes the descriptor |
| MicroAdsb.SetMode | src/microadsb.c:117-136 | the mode command is written and accepted iff the reply starts with #43; a failure closes the descriptor |
| MicroAdsb.Handshake | src/microadsb.c:84-138 | success keeps the descriptor open after writing the version query and the mode command; every failure closes it |
| MicroAdsb.Init | src/microadsb.c:34-139 | ma_init returns the first re-opened descriptor iff the reset, a re-open and the handshake succeed; success leaves only that descriptor open after exactly the three commands were written, failure leaves nothing open; the device is opened write-only once and read-write as often as re-opens were tried |

## Left out

- Time: the `gettimeofday` timestamps in `struct frame` and the main loop, and `alarm`/SIGALRM, are not modelled.
- Logging (`logmsg`, `fprintf`, the verbose print of each squitter) is not modelled.
- The throughput report of the main loop divides in floating point and resets the counters every few seconds. It is not modelled, so `ModesD.Run`'s counters are cumulative.
- `extractTC` and `extractFC` have no body in the repository. `ModesD.Step` keeps the time code and counter text they would read.
- The line reader (`readln`) has no body in the repository. Each dialogue is handed the lines it returns (or its failure).
- The single-byte read in aurora_read calls a `readn` whose body is not in the repository. It is modelled as one read(2) of at most one byte (`Serial.Port.Read`).
- The termios set-up, fcntl and the DTR ioctls are success/failure parameters. `sleep` cannot fail; each call is recorded in the trace as `Slept`.
- socket(2), gethostbyname, connect(2), send(2), malloc and strdup are outcome parameters.
- The `timeout` parameter of aurora_read is not modelled: the code never uses it.
- The command-line handling (`getopt`, `usage`, `-T`) is not modelled. The main loop starts from an open device.
- The X Toolkit front end (`nbmodes.c`) and `util.c` are not part of this model.
- parseframe's length check against 36 is applied to one less than the body length, so the code accepts 37-byte bodies (`Aurora.BodyVerdict`, `Aurora.ThirtySixByteBodyRejected`). The model follows the code.
- Aurora.Init: the heartbeat wait is modelled over a finite list of lines that ends in a read failure, so the model always returns. A device that keeps sending lines other than the heartbeat, without a read error, keeps aurora_init waiting forever, and the model does not represent that.
- Aurora.Init: the RAW-mode write uses the corrected check `RawWriteFailed`, which rejects a write(2) error (see Findings). The check as written is `RawWriteFailedAsWritten`.
- Aurora.Read: `frame.skipped` is an unbounded integer; the overflow of the C `int` is not modelled.
- Aurora.Read: `parseframe` is modelled on the unstuffed body, and `sprintmodes` is called from `Read` once `ParseFrame` has accepted the body. The source calls it from inside `parseframe`, with the same effect.
- Aurora.Read: aurora_read's loop is the method `Aurora.Collect`. `Read` applies the skip charge and calls `parseframe`.
- ModesD.Run: `nFrames` and `nSkipped` are unbounded; the overflow of the C `long` is not modelled.
- ModesD.Run: the squitter handed to `udp_send` is recorded in `relayed` rather than sent. `udp_send`'s result is only logged by the loop, and the sending itself is `Udp.Relay.Send`.
- ModesD.ParseUdpArg: strdup's failure is not modelled. `atoi`'s overflow on more digits than an `int` holds is not modelled either.
- Udp.Relay.Send: the datagrams are built with the corrected `snprintf` bound (see Findings).
- Udp.Relay: the node addresses of the linked list are modelled by allocation numbers. The `sockaddr_in` each target holds is not modelled.

## Findings

| source | as written | input that shows it | evidently intended | confidence | as-written member | corrected member |
|---|---|---|---|---|---|---|
| src/udp.c:133-134 | every snprintf into the buflen+1 buffer is bounded by buflen-i, which leaves no room for the NUL snprintf always writes, so the trailing ';' is replaced by a NUL and send(2) transmits that NUL | any squitter, e.g. the 14 characters 5DA7717DBBB591 for a raw target: the bytes sent are "*5DA7717DBBB591" and a NUL instead of "*5DA7717DBBB591;" | the datagram *XXXX; (or AV*XXXX;) that the usage text promises | not executed | Udp.SentAsWritten, Udp.SemicolonTruncated | Udp.BuiltIsDatagram, Udp.Compose |
| src/aurora.c:94 | write(2)'s signed result is compared with strlen's unsigned result, so -1 converts to the largest size_t and a failed write of the RAW command is taken as success | write(2) returns -1 when $!MSRARAW,*00 is written | a failed or short write closes the descriptor and returns -1 | not executed | Aurora.RawWriteFailedAsWritten, Aurora.RawWriteErrorAccepted | Aurora.RawWriteFailed, Aurora.Init |
