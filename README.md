# Stove register protocol: a Dafny model

This project models the register protocol that the pellet-stove bridge uses to
talk to the stove controller over a half-duplex serial link, as written in
`snippets/snippets.c`:

- **The read transaction `getDBG(address)`.** It sends the frame `[0x20, address]`, with a pause between the two bytes. It then drives the `ENABLE_RX` direction line low and waits for the controller to settle. It clears the two-slot buffer `stoveRxData` and drains every waiting byte into it, counting them in `rxCount`. Then it drives `ENABLE_RX` high again. When exactly two bytes arrived, it decodes `param = byte0 - byte1 (mod 256)` and `value = byte1`; otherwise it reports the count.
- **The write command `'X'`.** It takes a selector character and two two-digit hex fields. `'R'` selects the marker `0x80` and anything else selects `0xA0`. It computes the 8-bit wrap-around checksum of marker, address and value. It sends `[marker, address, value, checksum]` one byte at a time, each byte followed by a pause.
- **Dispatch on the first payload character.**
  - `'D'` reads registers `0x00` up to `0xFE`, with a pause after each.
  - `'R'` reads the register named by two hex digits.
  - `'X'` writes a register.

Files, one module each:

- `bytes.dfy` (`Bytes`): the unsigned 8-bit `Byte`. Also C's truncation to 8 bits (`ToByte`) and the two's-complement reading of a `char` (`SignedChar`).
- `hex.dfy` (`Hex`): the value of a two-digit hex field, as `strtol(.., 16)` computes it for two hex digits.
- `frames.dfy` (`Frames`): the frames as values. This covers the read frame, the marker, the checksum, the write frame, and the decoding of the reply. It also has `ControllerReply`, the encoding the controller's decode expects.
- `transactions.dfy` (`Transactions`): the link as a class `StoveLink`. Its state has four parts:
  - `trace`: every byte written, every pause and every change of the direction line, in order;
  - `rxQueue`: the bytes `available()` on the link;
  - `enableRx`: the `ENABLE_RX` level;
  - `rxData`: the two-slot `stoveRxData` array.

  `ReadRegister` is `getDBG`, with its drain loop in `Receive`. `WriteRegister` is the frame build and the four-byte send loop of `'X'`. The file also has the trace functions `ReadTrace`/`WriteTrace` and the extractors `Written`/`ReadAddresses`.
- `commands.dfy` (`Commands`): the `'D'` sweep loop, the `'R'` and `'X'` field parses, and `Dispatch`.

The controller is outside the model, so what it sends back is a parameter. Each read transaction takes the bytes `arrived` during the settling pause after the line goes low. Bytes that were already waiting (`rxQueue`) are drained with them. The dump takes one answer per address. Everything the source prints is returned instead: the dump, the read and the write return an `Outcome`, and `getDBG` returns a `Reply`. The model is deterministic: the same link state and the same answers give the same replies and the same trace.

Behaviour of the code, and how the model treats it:

- **Selector.** The code maps every character other than `'R'` to `0xA0`, and so does `Frames.Marker`; there is no rejection path.
- **Hex fields.** The code does not check that the fields are hex digits; the model requires them.
- **Unknown command letter.** The code does nothing and prints nothing; the model returns `Ignored` with the link unchanged.
- **Capture of reply bytes.** The drain loop has no cap on the number of bytes it stores.
- **Dump range.** The loop runs while the counter is below `0xFF`, so it visits 255 addresses, `0x00`..`0xFE`, and never `0xFF`.

## Model

| member | source | states |
|---|---|---|
| `Bytes.ToByteSpec` | snippets/snippets.c:68 | storing an `int` into an 8-bit variable keeps it modulo 256 and leaves values 0..255 alone |
| `Bytes.SignedCharSpec` | snippets/snippets.c:55-61 | a signed `char` lies in -128..127, holds the same bits as its byte, and converts back to that byte |
| `Hex.HexVal` | snippets/snippets.c:48 | a hex digit of either case has a value below 16 |
| `Hex.HexValIgnoresCase` | snippets/snippets.c:48 | a lower-case digit is worth the same as its upper-case form, and the upper-case digit `HexChar` spells for a digit's value is that digit's upper-case form, so 'a'..'f' and 'A'..'F' are 10..15 as base-16 `strtol` reads them |
| `Hex.ParseHexByteIgnoresCase` | snippets/snippets.c:46-48 | a two-digit field denotes the same byte whatever the case of its letters |
| `Hex.HexChar` | snippets/snippets.c:48 | the upper-case digit for each value below 16 is a hex digit worth exactly that value |
| `Hex.ParseHexByteNibbles` | snippets/snippets.c:46-48 | the two-digit field parses to the byte whose upper nibble is the first digit's value and whose lower nibble is the second's |
| `Hex.ParseHexByteOfHexChars` | snippets/snippets.c:56-61 | every byte 0..255 has a two-digit spelling that parses back to it |
| `Hex.ParseHexByteInjective` | snippets/snippets.c:56-61 | two fields give the same byte exactly when their digits have the same values |
| `Frames.ReadFrame` | snippets/snippets.c:3-6 | a read request is two bytes: `0x20`, then the address |
| `Frames.Marker` | snippets/snippets.c:62-66 | the marker is `0x80` exactly when the selector is `'R'`, and `0xA0` otherwise |
| `Frames.ChecksumSpec` | snippets/snippets.c:68 | the checksum equals marker + address + value modulo 256 |
| `Frames.WriteFrame` | snippets/snippets.c:68-69 | the write frame is four bytes: the selector's marker, the address, the value, then the checksum |
| `Frames.WriteFrameChecksumValid` | snippets/snippets.c:68-69 | every write frame's last byte is the checksum of the three before it |
| `Frames.ChecksumUnique` | snippets/snippets.c:68 | a four-byte frame is valid if and only if its last byte is exactly `Checksum` of the first three |
| `Frames.ValidFrameIsWriteFrame` | snippets/snippets.c:69 | a valid frame whose first byte is a selector's marker is the write frame of its own address and value |
| `Frames.ChecksumDetectsSingleByteChange` | snippets/snippets.c:68 | changing the address alone or the value alone always changes the checksum |
| `Frames.ChecksumIgnoresCharSignedness` | snippets/snippets.c:62-68 | summing the three bytes as signed `char`s and truncating gives the same checksum as unsigned arithmetic |
| `Frames.DecodeReply` | snippets/snippets.c:18-25 | a reply decodes to a parameter/value pair if and only if exactly two bytes were captured, with the value taken from the second byte; otherwise it reports the captured count |
| `Frames.DecodeReplyParam` | snippets/snippets.c:20-22 | the decoded parameter plus the value equals the first byte modulo 256 |
| `Frames.DecodeControllerReply` | snippets/snippets.c:18-22 | decoding the controller's encoding of (param, value) gives back that param and value |
| `Frames.ControllerReplyOfDecode` | snippets/snippets.c:18-22 | every two-byte reply is the controller's encoding of what it decodes to |
| `Frames.Examples` | snippets/snippets.c:68-69 | the writes (`0xA0`, `0xFF`, `0xFF`) and (`0x80`, `0x10`, `0x01`) carry checksums `0x9E` and `0x91`; replies `05 03` and `03 05` decode to params `0x02` and `0xFE`; a single byte is a count of 1 |
| `Transactions.ReadTraceShape` | snippets/snippets.c:3-17 | a read transaction writes exactly `[0x20, address]`; the line goes low only after both bytes; nothing is written afterwards |
| `Transactions.ReadTraceAddress` | snippets/snippets.c:4-7 | a read transaction requests exactly its own address, once |
| `Transactions.WrittenWriteTrace` | snippets/snippets.c:72-76 | sending a frame writes exactly the frame's bytes, in order |
| `Transactions.WriteTraceKeepsLine` | snippets/snippets.c:72-76 | sending a frame never drives the `ENABLE_RX` line |
| `Transactions.WriteTraceRequestsNothing` | snippets/snippets.c:72-76 | sending a frame makes no read request |
| `Transactions.Padded` | snippets/snippets.c:10-16 | after a capture, the buffer holds the captured bytes; the slots not filled are still zero |
| `Transactions.StoveLink.Write` | snippets/snippets.c:4 | `StoveSerial.write` appends exactly one written byte to the trace |
| `Transactions.StoveLink.Pause` | snippets/snippets.c:5 | `delay` appends one pause to the trace |
| `Transactions.StoveLink.DriveEnableRx` | snippets/snippets.c:7 | `digitalWrite(ENABLE_RX, ..)` sets the line and records the change in the trace |
| `Transactions.StoveLink.Available` | snippets/snippets.c:12 | `available()` is true exactly when a byte is waiting |
| `Transactions.StoveLink.Read` | snippets/snippets.c:14 | `read()` returns the oldest waiting byte and removes it |
| `Transactions.StoveLink.Receive` | snippets/snippets.c:9-16 | the drain loop empties the queue, counts exactly the bytes drained, and leaves them in the buffer after clearing it |
| `Transactions.StoveLink.ReadRegister` | snippets/snippets.c:1-27 | `getDBG`: the trace grows by exactly `ReadTrace(address)`; the queue ends empty and the line high; the reply and the buffer are the decode and the padding of the bytes captured |
| `Transactions.StoveLink.WriteRegister` | snippets/snippets.c:62-76 | the frame sent is `WriteFrame(selector, address, value)`; the trace grows by each byte followed by a pause; the queue and the line are untouched |
| `Commands.SweepStepAddress` | snippets/snippets.c:37-39 | one step of the dump requests exactly its own address |
| `Commands.SweepTraceAddresses` | snippets/snippets.c:34-40 | the first n steps of the dump request the addresses 0..n-1, in order |
| `Commands.SweepRequestsEachAddressOnce` | snippets/snippets.c:34 | the dump makes 255 requests, one for each address `0x00`..`0xFE`, strictly ascending, none for `0xFF` |
| `Commands.SweepRead` | snippets/snippets.c:37-39 | one dump step is exactly one read transaction followed by the pause, with the reply and buffer of that read |
| `Commands.Sweep` | snippets/snippets.c:32-41 | the trace grows by exactly the 255 steps of the dump; reply i is the decode of what arrived for address i; the queue ends empty, the line high, and the buffer holds the last register's capture |
| `Commands.ReadCommand` | snippets/snippets.c:44-50 | `'R'` reads the register the hex field names, and reports that address and the decoded reply; the buffer holds the padded capture |
| `Commands.WriteCommand` | snippets/snippets.c:53-77 | `'X'` sends and reports `WriteFrame` of the selector and the two parsed fields, and changes nothing but the trace |
| `Commands.Dispatch` | snippets/snippets.c:32-77 | the first character selects the dump, the read or the write, with their outcomes, traces, queue, line and buffer contents; any other character leaves the link unchanged; the command puts exactly 255 read requests on the link for `'D'`, one for `'R'` and none otherwise |

## Left out

- Text output (`Serial.printf`, `Serial.println`). The model returns the values the lines would show (`Reply`, `Outcome`) instead of formatting them.
- Timing. `delay(1)`, `delay(80)` and `delay(400)` are each one `Delay` event in the trace, with no duration.
- The serial and GPIO drivers. They are the abstract state of `StoveLink`, not foreign calls. The `StoveLink` constructor and `Deliver` stand for the link's initial state and for the controller's transmission. Neither is code of the bridge.
- Bytes arriving at other times. The controller's answer arrives during the settling pause, and the drain sees a fixed snapshot. The race between trickling bytes and the `available()` check is not modelled.
- `Transactions.StoveLink.ReadRegister`: requires at most two bytes waiting at the drain. The source loop has no cap, and `stoveRxData` is not declared in the code shown, so a third byte would be written outside the model's two-slot buffer.
- Hex parsing of anything but two hex digits (`strtol` with whitespace, a sign, a `0x` prefix, or a partial parse). The command methods require hex digits. The source does not reject bad fields either.
- The terminating NUL of the hex fields. The source declares the two-character arrays `t` and `z` with room for two characters and then stores the terminator at index 2, past their end. The model parses the two characters directly. The out-of-bounds store cannot be expressed on Dafny arrays.
- Signed `char` counter in the dump loop. With a signed `char`, `t < 0xFF` never fails and the loop would not end, so the counter is modelled as an unsigned byte. Elsewhere every `char` value is reduced modulo 256 before it reaches the wire, so signedness does not change any byte sent (`Frames.ChecksumIgnoresCharSignedness`).
- The origin of `payload`. The enclosing message handler is not part of this model. The payload is a given character sequence, long enough for its command.
- Letter test order. The source tests `'D'`, `'R'` and `'X'` as three independent `if`s. Since `payload[0]` is unchanged between them, at most one runs, and the model writes them as one `if`/`else` chain.
