# XE_MIDI core, modelled in Dafny

This project models the self-contained parts of the XE_MIDI library, an
Arduino MIDI library, and proves properties of them:

- **SysEx codec** (`sysex.dfy`, module `SysEx`). This is `encodeSysEx` and
  `decodeSysEx` from `src/XE_MIDI.cpp`. They carry an 8-bit payload over
  7-bit-clean MIDI.
  - Every block of up to 7 payload bytes becomes a header byte plus one
    body byte per payload byte. The header holds the block's high bits: the
    first byte's high bit is in header bit 6, the next one's in bit 5, and
    so on.
  - `Encode` and `Decode` specify the codec over sequences. `EncodeSysEx` and
    `DecodeSysEx` are the source's array loops, proved to compute them.
  - Proved: the round trip, the lengths, that the encoded stream never sets
    bit 7, and where every bit of every payload byte lands.
- **Ring buffer** (`ring_buffer.dfy`, module `Ring`). This is the template
  `RingBuffer` of `src/XE_MIDI_RingBuffer.hpp`, specialised to bytes.
  - The value `Buffer` and its functions (`Length`, `Queue`, `Push`, `Pop`,
    `PushAll`, `PopAll`) are the specification.
  - The class `RingBuffer` holds the array and the two heads. Its methods
    are proved against those functions.
  - Proved: FIFO order, how the buffer collapses when the last free slot is
    written, and what a read of an empty buffer returns.
- **RPN/NRPN helper** (`rpn_state.dfy`, module `Rpn`). This is `Value` and
  `State<Size>` of `examples/RPN_NRPN/utility.h`.
  - `Value` is a 14-bit number kept as two 7-bit halves. Its assignment,
    saturating addition and flooring subtraction are modelled with the
    source's `unsigned`/`int` conversions written out, taking both types
    to be 32 bits wide (see "## Left out").
  - `State` is a fixed table of parameter cells plus a sentinel cell. It
    provides `reset`, `enable`, `has` and `get`.
- **Message** (`message.dfy`, module `MidiMessage`). This is the default
  constructor and `getSysExSize` of `src/XE_MIDI_Message.h`.
- **USB-MIDI event packets** (`usb_defs.dfy`, module `UsbDefs`). This is
  the Code Index Number size table and the 4-byte packet of
  `src/XE_MIDI_UsbDefs.h`, as section 4 of the USB Device Class Definition
  for MIDI Devices 1.0 lays them out.

`bytes.dfy` declares the byte type (`bv8`), so the source's shifts and masks
read as written.

The ring buffer checks neither for room nor for data:
- **Writing.** No write checks for room. The write into the last free slot
  brings the write head onto the read head, and the buffer then reports
  itself empty (`Ring.PushWhenFull`, `Ring.FullTurnLooksEmpty`). The slots
  still hold what was written, in order (`Ring.WrapAroundReads`).
- **Reading.** No read checks for data. A read of an empty buffer returns
  the slot under the read head and moves on (`Ring.PopWhenEmpty`).

## Model

| member | source | states |
|---|---|---|
| SysEx.Encode | src/XE_MIDI.cpp:37-61 | the encoding as a sequence, block by block; EncodeLength, EncodeClean, EncodeLayout and RoundTrip state its length, that it is 7-bit clean, where each payload bit lands, and that Decode inverts it |
| SysEx.HeaderOf | src/XE_MIDI.cpp:49 | the header after the high bits of the first n block bytes are ORed in, the byte at position k into bit 6-k; HeaderBit and HeaderClean state every bit of it |
| SysEx.Decode | src/XE_MIDI.cpp:74-95 | the decoding as a sequence, block by block; DecodeLength, DecodeAt and DecodeStep state its length, each of its bytes and the loop step that builds it |
| SysEx.EncodeSysEx | src/XE_MIDI.cpp:37-61 | returns EncodedLength(n), writes Encode(input) into the first r output bytes, leaves a zero header after a payload of a multiple of 7 bytes, and does not touch the output past the last byte the loop writes |
| SysEx.EncodePass | src/XE_MIDI.cpp:45-58 | one loop iteration: ORs the byte's high bit into header bit 6 - count, stores its low seven bits after the header, and on the seventh byte moves to a fresh zero header 8 bytes on |
| SysEx.DecodeSysEx | src/XE_MIDI.cpp:74-95 | returns DecodedLength(n), writes Decode(input) into the first count output bytes, and leaves the rest of the output as it was |
| SysEx.RoundTrip | src/XE_MIDI.cpp:37-95 | decoding an encoded payload gives back the payload |
| SysEx.EncodeLength | src/XE_MIDI.cpp:60 | the encoding is 8 bytes per full block plus one header and the bodies of a partial block |
| SysEx.DecodeLength | src/XE_MIDI.cpp:80-94 | the decoder emits one byte per input byte that is not at a position divisible by 8 |
| SysEx.EncodeClean | src/XE_MIDI.cpp:46-50 | no encoded byte, header or body, has bit 7 set |
| SysEx.HeaderClean | src/XE_MIDI.cpp:49 | a block header only uses bits 0 to 6 |
| SysEx.EncodeLayout | src/XE_MIDI.cpp:45-58 | payload byte 7k+j is stored as body 8k+1+j holding its low bits, and its high bit is bit 6-j of header 8k |
| SysEx.EncodeBlockLayout | src/XE_MIDI.cpp:49-50 | the same within one block |
| SysEx.HeaderBit | src/XE_MIDI.cpp:49 | bit p of a header is the high bit of block byte 6-p, or 0 past the end of the block |
| SysEx.EncodeAppend | src/XE_MIDI.cpp:52-58 | blocks are encoded independently: the encoding of a + b, a being whole blocks, is the encoding of a followed by that of b |
| SysEx.DecodeAt | src/XE_MIDI.cpp:82-91 | decoded byte 7q+r-1 combines bit 7-r of header 8q with body 8q+r |
| SysEx.DecodeStep | src/XE_MIDI.cpp:80-93 | one more input byte: a header adds nothing to the decoding, and a body at position r of its block appends the byte decoded from it and bit 7 - r of the block's header |
| SysEx.UnmaskedBody | src/XE_MIDI.cpp:89-91 | the decoder does not mask bodies: a body with bit 7 set decodes to a byte with bit 7 set |
| SysEx.DecodeEncodeBlock | src/XE_MIDI.cpp:45-50 | decoding one encoded block gives the block back |
| SysEx.DecodeEncodedByte | src/XE_MIDI.cpp:90-91 | the decoder's msb/body recombination inverts the encoder's split |
| SysEx.SplitJoin | src/XE_MIDI.cpp:46-47 | a byte is its high bit shifted back to bit 7 ORed with its low seven bits |
| SysEx.Msb | src/XE_MIDI.cpp:46 | the high bit is 0 or 1 |
| SysEx.PlaceIsShift | src/XE_MIDI.cpp:49 | placing the high bit at bit n is the source's shift `msb << n` |
| SysEx.DecodedByteIs | src/XE_MIDI.cpp:90-91 | the decoder's `((msbStorage >> byteIndex) & 1) << 7 \| body` is the byte Decode specifies |
| SysEx.Decrement | src/XE_MIDI.cpp:90 | `byteIndex--` on a byte: one less, modulo 256 |
| SysEx.WrittenDone | src/XE_MIDI.cpp:52-60 | when the loop ends, the bytes written are the encoding, plus the fresh zero header when the payload ended a block |
| Ring.Empty | src/XE_MIDI_RingBuffer.hpp:24-30 | the state the constructor and `clear` leave: every slot 0, both heads on slot 0; EmptyIsEmpty states that it holds nothing |
| Ring.Push | src/XE_MIDI_RingBuffer.hpp:64-72 | `write` on the value: keeps the buffer well formed; PushQueue and PushWhenFull state that it appends with room to spare and empties the buffer on the last free slot |
| Ring.Pop | src/XE_MIDI_RingBuffer.hpp:93-102 | `read` on the value: keeps the buffer well formed; PopQueue and PopWhenEmpty state what it returns with and without data |
| Ring.PushAll | src/XE_MIDI_RingBuffer.hpp:74-81 | the array `write`: keeps the size and the read head; PushAllQueue and PushAllWrites state the order and the slots written |
| Ring.PopAll | src/XE_MIDI_RingBuffer.hpp:104-111 | the array `read`: returns n items and keeps the size and the write head; PopAllQueue and PopAllReads state which items |
| Ring.Length | src/XE_MIDI_RingBuffer.hpp:39-54 | the length is the forward distance from read head to write head, (write - read) mod size, and below size |
| Ring.Next | src/XE_MIDI_RingBuffer.hpp:66-71 | a head moves to (head + 1) mod size |
| Ring.EmptyIffZeroLength | src/XE_MIDI_RingBuffer.hpp:56-60 | the heads coincide exactly when the length is 0 |
| Ring.EmptyIsEmpty | src/XE_MIDI_RingBuffer.hpp:83-89 | a new or cleared buffer holds nothing |
| Ring.PushQueue | src/XE_MIDI_RingBuffer.hpp:64-72 | a write with room to spare appends the item to the queue |
| Ring.PushWhenFull | src/XE_MIDI_RingBuffer.hpp:64-72 | the write into the last free slot leaves the buffer reporting length 0 |
| Ring.PopQueue | src/XE_MIDI_RingBuffer.hpp:93-102 | a read of a non-empty buffer returns the oldest item and removes it |
| Ring.PopWhenEmpty | src/XE_MIDI_RingBuffer.hpp:93-102 | a read of an empty buffer returns the slot under the read head and leaves size - 1 items reported |
| Ring.PushAllQueue | src/XE_MIDI_RingBuffer.hpp:74-81 | writes within capacity append their items in order |
| Ring.PopAllQueue | src/XE_MIDI_RingBuffer.hpp:104-111 | reads of at most the queued items return the oldest ones in order and leave the rest |
| Ring.Fifo | src/XE_MIDI_RingBuffer.hpp:64-111 | writing xs and then reading every queued item returns the old items and then xs, in order |
| Ring.PushAllWrites | src/XE_MIDI_RingBuffer.hpp:74-81 | up to a full turn of writes puts item k k slots on from the write head and leaves every other slot alone |
| Ring.PopAllReads | src/XE_MIDI_RingBuffer.hpp:104-111 | up to a full turn of reads returns the slots from the read head on |
| Ring.FullTurnLooksEmpty | src/XE_MIDI_RingBuffer.hpp:64-72 | size writes into an empty buffer leave it reporting length 0 |
| Ring.WrapAroundReads | src/XE_MIDI_RingBuffer.hpp:64-111 | up to size writes into an empty buffer, then as many reads, return the items in order |
| Ring.RingBuffer.constructor | src/XE_MIDI_RingBuffer.hpp:24-30 | both heads on slot 0 and every slot 0 |
| Ring.RingBuffer.GetLength | src/XE_MIDI_RingBuffer.hpp:39-54 | the length of the buffer's value |
| Ring.RingBuffer.IsEmpty | src/XE_MIDI_RingBuffer.hpp:56-60 | true exactly when the length is 0 |
| Ring.RingBuffer.Write | src/XE_MIDI_RingBuffer.hpp:64-72 | the new state is Push of the old one |
| Ring.RingBuffer.WriteArray | src/XE_MIDI_RingBuffer.hpp:74-81 | the new state is PushAll of the first inSize items, none for inSize of 0 or less |
| Ring.RingBuffer.Clear | src/XE_MIDI_RingBuffer.hpp:83-89 | every slot 0 and both heads on slot 0 |
| Ring.RingBuffer.Read | src/XE_MIDI_RingBuffer.hpp:93-102 | returns and advances past the slot under the read head, as Pop |
| Ring.RingBuffer.ReadArray | src/XE_MIDI_RingBuffer.hpp:104-111 | fills the first inSize output bytes with the items PopAll returns, ends in PopAll's state, and leaves the rest of the output alone |
| Rpn.As14Bits | examples/RPN_NRPN/utility.h:26-29 | the 14-bit number is at most 0x3fff |
| Rpn.As14BitsHalves | examples/RPN_NRPN/utility.h:26-29 | the halves are the number's quotient and remainder by 128 |
| Rpn.As14BitsInjective | examples/RPN_NRPN/utility.h:26-29 | two values with the same number are equal |
| Rpn.Assign | examples/RPN_NRPN/utility.h:30-35 | `operator=`: the high and low 7-bit halves of the number; AssignMasks, AssignSmall and AssignAs14Bits state that it keeps the number modulo 0x4000 |
| Rpn.AssignMasks | examples/RPN_NRPN/utility.h:30-35 | assignment keeps the number modulo 0x4000: a mask, not a clamp |
| Rpn.AssignAs14Bits | examples/RPN_NRPN/utility.h:26-35 | assigning a value's own number gives the value back |
| Rpn.AssignSmall | examples/RPN_NRPN/utility.h:30-35 | a number of 14 bits is assigned unchanged |
| Rpn.AddTo | examples/RPN_NRPN/utility.h:36-49 | `operator+=` with the unsigned sum written out, 32 bits assumed; AddSaturates, AddNegativeWraps and AddNegativeSubtracts state its result for every sign of d |
| Rpn.SubFrom | examples/RPN_NRPN/utility.h:50-63 | `operator-=`; SubFloors and SubNegativeMasks state its result for every sign of d |
| Rpn.AddSaturates | examples/RPN_NRPN/utility.h:36-49 | for d >= 0, += d gives min(current + d, 0x3fff) |
| Rpn.AddNegativeWraps | examples/RPN_NRPN/utility.h:38-43 | += of a negative d larger than the value wraps the unsigned sum and saturates at 0x3fff |
| Rpn.AddNegativeSubtracts | examples/RPN_NRPN/utility.h:38-47 | += of a negative d no larger than the value subtracts it |
| Rpn.SubFloors | examples/RPN_NRPN/utility.h:50-63 | for d >= 0, -= d gives current - d, or 0 when that is 0 or less |
| Rpn.SubNegativeMasks | examples/RPN_NRPN/utility.h:50-63 | -= of a negative d is not saturated: the difference is masked to 14 bits |
| Rpn.ResetCell | examples/RPN_NRPN/utility.h:81-86 | `Cell::reset`: inactive, number 0, value 0; ResetValues states the value is what assigning 0 gives |
| Rpn.Sentinel | examples/RPN_NRPN/utility.h:96-98 | the fallback cell `reset` leaves: inactive, number 0xffff; ResetValues states its value is what assigning 0xffff gives |
| Rpn.Matches | examples/RPN_NRPN/utility.h:119-154 | the test `has` and `get` apply to a cell: inactive and holding n |
| Rpn.EnableCells | examples/RPN_NRPN/utility.h:102-116 | `enable` on the table as a value; EnableOpensLowest, EnabledCellNeverFound and EnableThenHasNot state what it opens and what lookups then find |
| Rpn.ResetValues | examples/RPN_NRPN/utility.h:81-99 | a reset cell holds the value 0, and the sentinel holds what assigning 0xffff gives, which reads back as 0x3fff |
| Rpn.Find | examples/RPN_NRPN/utility.h:131-154 | the first cell that is inactive and holds n, or the sentinel when no cell does |
| Rpn.FirstInactive | examples/RPN_NRPN/utility.h:104-115 | the lowest inactive cell, or none when every cell is active |
| Rpn.EnableOpensLowest | examples/RPN_NRPN/utility.h:102-116 | enable succeeds exactly when a cell is inactive, and then opens the lowest such cell for n with value 0, changing no other cell; on failure nothing changes |
| Rpn.EnabledCellNeverFound | examples/RPN_NRPN/utility.h:102-154 | a cell opened by enable is never what a lookup returns |
| Rpn.EnableThenHasNot | examples/RPN_NRPN/utility.h:102-130 | enabling n does not make n found |
| Rpn.ResetFindsZero | examples/RPN_NRPN/utility.h:81-99 | after reset, number 0 is found, in cell 0 |
| Rpn.State.constructor | examples/RPN_NRPN/utility.h:90-99 | the table starts reset |
| Rpn.State.Reset | examples/RPN_NRPN/utility.h:90-99 | every cell inactive with number 0 and value 0; the sentinel with number 0xffff and value 0x3fff |
| Rpn.State.Enable | examples/RPN_NRPN/utility.h:102-116 | the table and the result are those of EnableCells |
| Rpn.State.Has | examples/RPN_NRPN/utility.h:119-130 | true exactly when some cell is inactive and holds n |
| Rpn.State.Get | examples/RPN_NRPN/utility.h:131-154 | points at the first inactive cell holding n, or at the sentinel |
| MidiMessage.Message.constructor | src/XE_MIDI_Message.h:36-44 | channel 0, InvalidType, both data bytes 0, not valid, every SysEx byte 0, and a SysEx size of 0 |
| MidiMessage.Message.GetSysExSize | src/XE_MIDI_Message.h:83-87 | min(256 * data2 + data1, capacity), so never above the capacity |
| MidiMessage.JoinBytes | src/XE_MIDI_Message.h:85 | `data2 << 8 \| data1` is the base-256 number the two bytes form |
| UsbDefs.GetSize | src/XE_MIDI_UsbDefs.h:55-83 | at most 3; exactly 3, 2 or 1 for the Code Index Numbers of 3-, 2- and 1-byte events |
| UsbDefs.ChannelVoiceSizes | src/XE_MIDI_UsbDefs.h:59-73 | channel-voice events use 3 bytes, except program change and channel pressure which use 2 |
| UsbDefs.SizeZero | src/XE_MIDI_UsbDefs.h:79-82 | the size is 0 exactly for misc, cable events and values above 0xf |
| UsbDefs.Header | src/XE_MIDI_UsbDefs.h:97-102 | the header byte is the two-digit base-16 number whose digits are the cable and Code Index nibbles |
| UsbDefs.CableOf | src/XE_MIDI_UsbDefs.h:109-112 | the cable number is a nibble |
| UsbDefs.CodeIndexOf | src/XE_MIDI_UsbDefs.h:113-116 | the Code Index Number is a nibble |
| UsbDefs.HeaderRoundTrip | src/XE_MIDI_UsbDefs.h:97-116 | reading a header back gives cable & 0x0f and cin & 0x0f |
| UsbDefs.HeaderOfFields | src/XE_MIDI_UsbDefs.h:97-116 | every header byte is rebuilt from its two fields |
| UsbDefs.UsbMidiEventPacket.constructor | src/XE_MIDI_UsbDefs.h:91-94 | all four bytes 0 |
| UsbDefs.UsbMidiEventPacket.SetHeader | src/XE_MIDI_UsbDefs.h:97-102 | byte 0 becomes the header and the data bytes are kept; the getters then return the written nibbles |
| UsbDefs.UsbMidiEventPacket.SetMidiData | src/XE_MIDI_UsbDefs.h:103-108 | bytes 1 to 3 become the three source bytes; the header is kept |
| UsbDefs.UsbMidiEventPacket.GetCableNumber | src/XE_MIDI_UsbDefs.h:109-112 | the cable field of the header byte |
| UsbDefs.UsbMidiEventPacket.GetCodeIndexNumber | src/XE_MIDI_UsbDefs.h:113-116 | the Code Index Number field of the header byte |
| UsbDefs.UsbMidiEventPacket.GetMidiData | src/XE_MIDI_UsbDefs.h:117-124 | the three bytes after the header |
| UsbDefs.UsbMidiEventPacket.Assign | src/XE_MIDI_UsbDefs.h:125-130 | the packet becomes the four source bytes, header first |

## Left out

- The `MidiInterface` parser, its senders (including the RPN/NRPN senders), the thru filter and the callbacks (src/XE_MIDI.h:38-241): their bodies are in XE_MIDI.hpp, which is not part of this model. Running status, real-time interleaving and SysEx accumulation would have to be invented.
- `sendPitchBend(double, …)`: floating point.
- src/XE_MIDI_UsbTransport.hpp and its header: a thin wrapper over the MIDIUSB library, which is not part of this model.
- `MidiType`: its enumerators and their values are in XE_MIDI_Defs.h, which is not part of this model. The model only distinguishes `InvalidType`.
- Pointers are modelled as arrays with offsets or indices.
  - `outSysEx += 8` is the offset `outLength`.
  - The ring buffer's heads are indices.
  - `get` returns which cell it points at rather than a reference, so writes through that reference are not modelled. The same goes for the writable `getMidiData` overload.
- SysEx.EncodeSysEx, SysEx.DecodeSysEx: buffer sizes are preconditions. The output must hold every byte the loop writes, which the source leaves to the caller.
  - `inLength` is unbounded, so the wrap of `outLength` is not modelled. With the 32-bit `unsigned` assumed below, it wraps for inputs of 7 * 2^29 bytes (about 3.76 GB) or more.
  - The input and output arrays are taken distinct.
- UsbDefs.UsbMidiEventPacket.SetMidiData, UsbDefs.UsbMidiEventPacket.Assign: the source array is taken distinct from the packet's own bytes. Copying a packet onto itself through `getMidiData` is not modelled.
- Ring.RingBuffer.WriteArray, Ring.RingBuffer.ReadArray: the caller's array is taken distinct from the buffer's private storage.
- Ring.RingBuffer: specialised to bytes, the element type of the USB transport's transmit and receive buffers. `memset` becomes "every slot 0".
- Rpn.Value: each half is a 7-bit number rather than a byte. Every assignment masks with 0x7f and the table starts out reset, so bit 7 is never set.
  - With bit 7 clear, `msb << 7 | lsb` is `msb * 128 + lsb`.
  - Cells holding garbage before the first `reset` are not modelled: the constructor resets.
- Rpn.SubFrom: `current - inValue` is taken as a mathematical difference. The signed 32-bit overflow is not modelled; it is undefined behaviour for `inValue` at most `current - 2^31`, and there SubFrom and SubNegativeMasks describe the model only.
- `int` and `unsigned` are taken as 32 bits, as on ARM boards; the source does not fix their width. On 16-bit AVR targets, Rpn.AddTo and Rpn.Assign give the same results for every 16-bit argument. There, `-=` already overflows for `inValue` at most `current - 2^15`, and the length `encodeSysEx` returns wraps for `inLength` of 57344 or more.
- Rpn.State: the two `get` overloads (const and non-const) are one method.
