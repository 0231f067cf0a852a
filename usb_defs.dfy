/** USB-MIDI event packets (src/XE_MIDI_UsbDefs.h), as laid out in section
    4 of the USB Device Class Definition for MIDI Devices, release 1.0: a
    header byte carrying the cable number in its upper nibble and the Code
    Index Number in its lower nibble, then three bytes of MIDI data. */
module UsbDefs {
  import opened Bytes

  // ---------------------------------------------------------------------------
  // Code Index Numbers (Table 4-1 of the USB-MIDI class definition)

  const Reserved: byte := 0x00
  const Misc: byte := Reserved
  const CableEvent: byte := 0x01
  const SystemCommon2Bytes: byte := 0x02
  const SystemCommon3Bytes: byte := 0x03
  const SysExStart: byte := 0x04
  const SysExContinue: byte := SysExStart
  const SystemCommon1Byte: byte := 0x05
  const SysExEnds1Byte: byte := SystemCommon1Byte
  const SysExEnds2Bytes: byte := 0x06
  const SysExEnds3Bytes: byte := 0x07
  const NoteOff: byte := 0x08
  const NoteOn: byte := 0x09
  const PolyPressure: byte := 0x0a
  const ControlChange: byte := 0x0b
  const ProgramChange: byte := 0x0c
  const ChannelPressure: byte := 0x0d
  const PitchBend: byte := 0x0e
  const SingleByte: byte := 0x0f

  /** `getSize`: how many of the three data bytes a packet with this Code
      Index Number uses; 0 where the class definition leaves the length
      open or the value is not a Code Index Number. */
  function GetSize(cin: byte): (n: byte)
    ensures n <= 3
    ensures n == 3 <==> cin in {NoteOn, NoteOff, ControlChange, PitchBend, PolyPressure,
                                 SystemCommon3Bytes, SysExEnds3Bytes, SysExStart}
    ensures n == 2 <==> cin in {ProgramChange, ChannelPressure, SystemCommon2Bytes, SysExEnds2Bytes}
    ensures n == 1 <==> cin in {SystemCommon1Byte, SingleByte}
  {
    match cin
    case 0x09 => 3  // noteOn
    case 0x08 => 3  // noteOff
    case 0x0b => 3  // controlChange
    case 0x0e => 3  // pitchBend
    case 0x0a => 3  // polyPressure
    case 0x03 => 3  // systemCommon3Bytes
    case 0x07 => 3  // sysExEnds3Bytes
    case 0x04 => 3  // sysExStart, sysExContinue
    case 0x0c => 2  // programChange
    case 0x0d => 2  // channelPressure
    case 0x02 => 2  // systemCommon2Bytes
    case 0x06 => 2  // sysExEnds2Bytes
    case 0x05 => 1  // systemCommon1Byte, sysExEnds1Byte
    case 0x0f => 1  // singleByte
    case _ => 0
  }

  /** The channel-voice Code Index Numbers (0x8 to 0xe) each carry a whole
      channel message: two data bytes after the status, or one for program
      change and channel pressure. */
  lemma ChannelVoiceSizes(cin: byte)
    requires NoteOff <= cin <= PitchBend
    ensures GetSize(cin) == (if cin == ProgramChange || cin == ChannelPressure then 2 else 3)
  {
  }

  /** Only the sixteen nibble values are Code Index Numbers with a size;
      the open-length ones (misc and cable events) and anything above 0xf
      report 0. */
  lemma SizeZero(cin: byte)
    ensures GetSize(cin) == 0 <==> cin == Misc || cin == CableEvent || cin > SingleByte
  {
  }

  // ---------------------------------------------------------------------------
  // The header byte

  /** The header `setHeader` builds: both arguments cut to a nibble, the
      cable number above the Code Index Number. */
  function Header(cable: byte, cin: byte): (h: byte)
    ensures h as int == (cable & 0x0f) as int * 16 + (cin & 0x0f) as int
  {
    ((cable & 0x0f) << 4) | (cin & 0x0f)
  }

  /** `getCableNumber` of a header byte. */
  function CableOf(header: byte): (c: byte)
    ensures c <= 0x0f
  {
    header >> 4
  }

  /** `getCodeIndexNumber` of a header byte. */
  function CodeIndexOf(header: byte): (n: byte)
    ensures n <= 0x0f
  {
    header & 0x0f
  }

  /** Reading back a header gives the nibbles written. */
  lemma HeaderRoundTrip(cable: byte, cin: byte)
    ensures CableOf(Header(cable, cin)) == cable & 0x0f
    ensures CodeIndexOf(Header(cable, cin)) == cin & 0x0f
  {
  }

  /** Every header byte is the one its two fields rebuild. */
  lemma HeaderOfFields(header: byte)
    ensures Header(CableOf(header), CodeIndexOf(header)) == header
  {
  }

  // ---------------------------------------------------------------------------
  // The packet

  /** `UsbMidiEventPacket`: `mData[4]`. */
  class UsbMidiEventPacket {
    const data: array<byte>

    ghost predicate Valid()
    {
      data.Length == 4
    }

    /** The constructor: all four bytes 0. */
    constructor ()
      ensures Valid() && fresh(data) && data[..] == [0, 0, 0, 0]
    {
      data := new byte[4](_ => 0);
    }

    /** `setHeader`: byte 0 becomes the header; the data bytes are kept. */
    method SetHeader(cable: byte, cin: byte)
      requires Valid()
      modifies data
      ensures data[..] == old(data[..])[0 := Header(cable, cin)]
      ensures GetCableNumber() == cable & 0x0f && GetCodeIndexNumber() == cin & 0x0f
    {
      var msb := (0x0f & cable) << 4;
      var lsb := 0x0f & cin;
      data[0] := msb | lsb;
      HeaderRoundTrip(cable, cin);
    }

    /** `setMidiData`: bytes 1 to 3 become the three bytes from src[from]
        on; the header is kept. */
    method SetMidiData(src: array<byte>, from: nat)
      requires Valid() && src != data && from + 3 <= src.Length
      modifies data
      ensures data[0] == old(data[0])
      ensures GetMidiData() == src[from..from + 3]
    {
      data[1] := src[from];
      data[2] := src[from + 1];
      data[3] := src[from + 2];
    }

    /** `getCableNumber`. */
    function GetCableNumber(): (c: byte)
      reads data
      requires Valid()
      ensures c == CableOf(data[0])
    {
      data[0] >> 4
    }

    /** `getCodeIndexNumber`. */
    function GetCodeIndexNumber(): (n: byte)
      reads data
      requires Valid()
      ensures n == CodeIndexOf(data[0])
    {
      data[0] & 0x0f
    }

    /** `getMidiData`, both overloads: the three bytes after the header. */
    function GetMidiData(): (m: seq<byte>)
      reads data
      requires Valid()
      ensures |m| == 3 && data[..] == [data[0]] + m
    {
      data[1..]
    }

    /** `operator=(const byte*)`: the four bytes from src[from] on, header
        first. */
    method Assign(src: array<byte>, from: nat)
      requires Valid() && src != data && from + 4 <= src.Length
      modifies data
      ensures data[..] == src[from..from + 4]
    {
      data[0] := src[from];
      SetMidiData(src, from + 1);
      assert data[..] == [data[0]] + GetMidiData();
    }
  }
}
