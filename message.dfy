/** The decoded MIDI message of src/XE_MIDI_Message.h: its default state and
    the length of a System Exclusive payload, which the message keeps on 16
    bits split over its two data bytes (data1 the low byte, data2 the high
    byte). */
module MidiMessage {
  import opened Bytes

  /** `MidiType`. Its enumerators and their values are declared in
      XE_MIDI_Defs.h, which is not part of this model; apart from
      `InvalidType`, a type is carried as its status byte. */
  datatype MidiType = InvalidType | Status(code: byte)

  /** `Message<SysExMaxSize>`. */
  class Message {
    /** `sSysExMaxSize`: the capacity of `sysexArray`. */
    const sysExMaxSize: nat
    var channel: byte
    var kind: MidiType
    var data1: byte
    var data2: byte
    const sysexArray: array<byte>
    var valid: bool

    /** The default constructor: channel 0, `InvalidType`, both data bytes
        0, not valid, and every byte of the SysEx array 0. */
    constructor (maxSize: nat)
      ensures sysExMaxSize == maxSize && fresh(sysexArray) && sysexArray.Length == maxSize
      ensures channel == 0 && kind == InvalidType && data1 == 0 && data2 == 0 && !valid
      ensures forall i :: 0 <= i < maxSize ==> sysexArray[i] == 0
      ensures GetSysExSize() == 0
    {
      sysExMaxSize := maxSize;
      channel, kind, data1, data2, valid := 0, InvalidType, 0, 0, false;
      sysexArray := new byte[maxSize](_ => 0);
    }

    /** `getSysExSize`: `data2 << 8 | data1`, capped at the capacity. */
    function GetSysExSize(): (n: nat)
      reads this
      ensures n <= sysExMaxSize
      ensures n == if StoredLength(data1, data2) > sysExMaxSize then sysExMaxSize else StoredLength(data1, data2)
    {
      var size := (((data2 as bv16) << 8) | (data1 as bv16)) as nat;
      JoinBytes(data1, data2);
      if size > sysExMaxSize then sysExMaxSize else size
    }
  }

  /** The 16-bit length held in the two data bytes, as a number. */
  function StoredLength(lo: byte, hi: byte): (n: nat)
    ensures n < 0x1_0000
  {
    hi as nat * 256 + lo as nat
  }

  /** Shifting the high byte over the low one and or-ing them is the
      two-digit base-256 number they form. */
  lemma JoinBytes(lo: byte, hi: byte)
    ensures (((hi as bv16) << 8) | (lo as bv16)) as nat == StoredLength(lo, hi)
  {
  }
}
