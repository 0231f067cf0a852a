/** The 7-bit SysEx codec of src/XE_MIDI.cpp (`encodeSysEx`, `decodeSysEx`).

    An 8-bit payload is cut into blocks of up to 7 bytes. Each block is sent
    as one header byte, holding the high bit of every byte of the block
    (bit 6 for the first byte, descending), followed by the low seven bits
    of each byte. The encoded stream never sets bit 7.

    `Encode` and `Decode` are the specifications; `EncodeSysEx` and
    `DecodeSysEx` are the array loops of the source, proved equal to them. */
module SysEx {
  import opened Bytes

  // ---------------------------------------------------------------------------
  // Encoding

  /** `x >> n` and `x << n` for a shift amount 0..7, written out amount by
      amount so that every shift the solver sees is by a constant. */
  function Shr(x: byte, n: nat): byte
    requires n <= 7
  {
    match n
    case 0 => x
    case 1 => x >> 1
    case 2 => x >> 2
    case 3 => x >> 3
    case 4 => x >> 4
    case 5 => x >> 5
    case 6 => x >> 6
    case _ => x >> 7
  }

  function Shl(x: byte, n: nat): byte
    requires n <= 7
  {
    match n
    case 0 => x
    case 1 => x << 1
    case 2 => x << 2
    case 3 => x << 3
    case 4 => x << 4
    case 5 => x << 5
    case 6 => x << 6
    case _ => x << 7
  }

  /** A one-bit value m moved to bit n: the value of `msb << n` for an msb
      of 0 or 1 (see PlaceIsShift), stated without a shift. */
  function Place(m: byte, n: nat): byte
    requires m <= 1 && n <= 7
  {
    if m == 0 then 0 else Pow2(n)
  }

  /** The byte with only bit n set. */
  function Pow2(n: nat): byte
    requires n <= 7
  {
    match n
    case 0 => 1
    case 1 => 2
    case 2 => 4
    case 3 => 8
    case 4 => 16
    case 5 => 32
    case 6 => 64
    case _ => 128
  }

  lemma PlaceIsShift(m: byte, n: nat)
    requires m <= 1 && n <= 7
    ensures Place(m, n) == Shl(m, n)
  {
  }

  /** Bit 7 of a byte, as 0 or 1 (`data >> 7`). */
  function Msb(x: byte): (r: byte)
    ensures r <= 1
  {
    x >> 7
  }

  /** The low seven bits of a byte (`data & 0x7f`). */
  function Body(x: byte): byte { x & 0x7f }

  /** The header byte of the block b. */
  function Header(b: seq<byte>): byte
    requires |b| <= 7
  {
    HeaderOf(b, |b|)
  }

  /** The header byte after the first n bytes of b have been folded into it
      one at a time, byte `count` (0-based) contributing `msb << (6 - count)`. */
  function HeaderOf(b: seq<byte>, n: nat): byte
    requires n <= |b| && n <= 7
  {
    if n == 0 then 0
    else HeaderOf(b, n - 1) | Place(Msb(b[n - 1]), 7 - n)
  }

  /** The body bytes of a block. */
  function Bodies(b: seq<byte>): seq<byte>
  {
    seq(|b|, i requires 0 <= i < |b| => Body(b[i]))
  }

  /** One encoded block: the header byte, then the bodies. */
  function EncodeBlock(b: seq<byte>): seq<byte>
    requires 1 <= |b| <= 7
  {
    [Header(b)] + Bodies(b)
  }

  /** The encoded form of a whole payload: its 7-byte blocks encoded back to
      back, a final partial block with its own header. */
  function Encode(data: seq<byte>): seq<byte>
    decreases |data|
  {
    if |data| == 0 then []
    else if |data| <= 7 then EncodeBlock(data)
    else EncodeBlock(data[..7]) + Encode(data[7..])
  }

  /** The length `encodeSysEx` returns for an input of n bytes. */
  function EncodedLength(n: nat): nat
  {
    8 * (n / 7) + (if n % 7 == 0 then 0 else n % 7 + 1)
  }

  /** The highest index `encodeSysEx` writes for an input of n bytes: the
      last body of a partial block, or the zeroed header that follows the
      last full block. */
  function EncodeLastIndex(n: nat): nat
  {
    8 * (n / 7) + n % 7
  }

  // ---------------------------------------------------------------------------
  // Decoding

  /** The byte the decoder emits for the body at position `pos` (1..7) of a
      block: bit `7 - pos` of the block's header moved to bit 7, OR-ed with
      the body as received (the body is not masked). */
  function DecodedByte(header: byte, pos: nat, body: byte): byte
    requires 1 <= pos <= 7
  {
    (Bit(header, 7 - pos) << 7) | body
  }

  /** The bytes decoded from one block: a header and up to 7 bodies. */
  function DecodeBlockBodies(blk: seq<byte>): seq<byte>
    requires 1 <= |blk| <= 8
  {
    seq(|blk| - 1, k requires 0 <= k < |blk| - 1 => DecodedByte(blk[0], k + 1, blk[k + 1]))
  }

  /** What `decodeSysEx` emits for the input s: every position whose index is
      a multiple of 8 is a header and emits nothing; every other position
      emits one byte, decoded against the header that starts its block. */
  function Decode(s: seq<byte>): seq<byte>
    decreases |s|
  {
    if |s| == 0 then []
    else if |s| <= 8 then DecodeBlockBodies(s)
    else DecodeBlockBodies(s[..8]) + Decode(s[8..])
  }

  /** The length `decodeSysEx` returns for an input of n bytes: n less the
      ceil(n / 8) header positions. */
  function DecodedLength(n: nat): nat
  {
    n - (n + 7) / 8
  }

  // ---------------------------------------------------------------------------
  // Bit facts

  /** Bit p of a byte, as 0 or 1. */
  function Bit(x: byte, p: nat): byte
    requires p <= 7
  {
    Shr(x, p) & 1
  }

  /** OR-ing a one-bit m shifted to bit s into h sets bit s to m, when it
      was clear, and leaves every other bit alone. */
  lemma OrBitSame(h: byte, m: byte, s: nat)
    requires m <= 1 && s <= 6 && Bit(h, s) == 0
    ensures Bit(h | Place(m, s), s) == m
  {
  }

  lemma OrBitOther(h: byte, m: byte, s: nat, p: nat)
    requires m <= 1 && s <= 6 && p <= 7 && p != s
    ensures Bit(h | Place(m, s), p) == Bit(h, p)
  {
  }

  /** A byte is its high bit moved back to bit 7, OR-ed with its low seven bits. */
  lemma SplitJoin(x: byte)
    ensures (Msb(x) << 7) | Body(x) == x
  {
  }

  /** Bit p (0..6) of a block's header is the high bit of the block's byte
      6 - p, or 0 when the block has no such byte. */
  lemma {:induction false} HeaderBit(b: seq<byte>, p: nat)
    requires |b| <= 7 && p <= 6
    ensures Bit(Header(b), p) == if 6 - p < |b| then Msb(b[6 - p]) else 0
  {
    HeaderOfBit(b, |b|, p);
  }

  lemma {:induction false} HeaderOfBit(b: seq<byte>, n: nat, p: nat)
    requires n <= |b| && n <= 7 && p <= 6
    ensures Bit(HeaderOf(b, n), p) == if 6 - p < n then Msb(b[6 - p]) else 0
  {
    if n > 0 {
      HeaderOfBit(b, n - 1, p);
      HeaderOfBitStep(b, n, p);
    }
  }

  lemma HeaderOfBitStep(b: seq<byte>, n: nat, p: nat)
    requires 1 <= n <= |b| && n <= 7 && p <= 6
    requires Bit(HeaderOf(b, n - 1), p) == if 6 - p < n - 1 then Msb(b[6 - p]) else 0
    ensures Bit(HeaderOf(b, n), p) == if 6 - p < n then Msb(b[6 - p]) else 0
  {
    var h, m := HeaderOf(b, n - 1), Msb(b[n - 1]);
    var want := if 6 - p < n then Msb(b[6 - p]) else 0;
    var had := if 6 - p < n - 1 then Msb(b[6 - p]) else 0;
    assert p == 7 - n ==> had == 0 && want == m;
    assert p != 7 - n ==> want == had;
    OrBitCase(HeaderOf(b, n), h, m, 7 - n, p, had, want);
  }

  /** Bit p after OR-ing a one-bit m shifted to bit s into h. */
  lemma OrBitCase(hn: byte, h: byte, m: byte, s: nat, p: nat, had: byte, want: byte)
    requires m <= 1 && s <= 6 && p <= 6 && Bit(h, p) == had && hn == h | Place(m, s)
    requires p == s ==> had == 0 && want == m
    requires p != s ==> want == had
    ensures Bit(hn, p) == want
  {
    if p == s {
      OrBitSame(h, m, s);
    } else {
      OrBitOther(h, m, s, p);
    }
  }

  lemma {:induction false} HeaderClean(b: seq<byte>)
    requires |b| <= 7
    ensures Header(b) < 0x80
  {
    HeaderOfClean(b, |b|);
  }

  lemma {:induction false} HeaderOfClean(b: seq<byte>, n: nat)
    requires n <= |b| && n <= 7
    ensures HeaderOf(b, n) < 0x80
  {
    if n > 0 {
      HeaderOfClean(b, n - 1);
      OrBelow(HeaderOf(b, n - 1), Msb(b[n - 1]), 7 - n);
    }
  }

  lemma OrBelow(h: byte, m: byte, s: nat)
    requires h < 0x80 && m <= 1 && s <= 6
    ensures h | Place(m, s) < 0x80
  {
  }

  // ---------------------------------------------------------------------------
  // Properties of the encoding

  /** The encoded length is 8 bytes per full block of 7, plus a header and
      the bodies for a partial block; nothing for an empty payload. */
  lemma {:induction false} EncodeLength(data: seq<byte>)
    ensures |Encode(data)| == EncodedLength(|data|)
    decreases |data|
  {
    if |data| > 7 {
      EncodeLength(data[7..]);
    }
  }

  /** Every encoded byte is 7-bit clean. */
  lemma {:induction false} EncodeClean(data: seq<byte>)
    ensures forall i :: 0 <= i < |Encode(data)| ==> Encode(data)[i] < 0x80
    decreases |data|
  {
    if |data| > 0 {
      var blk := if |data| <= 7 then data else data[..7];
      HeaderClean(blk);
      var e := EncodeBlock(blk);
      forall i | 0 <= i < |e|
        ensures e[i] < 0x80
      {
        if i > 0 {
          BodyBelow(blk[i - 1]);
        }
      }
      if |data| > 7 {
        EncodeClean(data[7..]);
      }
    }
  }

  lemma BodyBelow(x: byte)
    ensures Body(x) < 0x80
  {
  }

  /** Within one encoded block, byte j keeps its low seven bits at index
      1 + j and its bit 7 in bit `6 - j` of the header. */
  lemma EncodeBlockLayout(blk: seq<byte>, j: nat)
    requires j < |blk| <= 7
    ensures EncodeBlock(blk)[1 + j] == Body(blk[j])
    ensures Bit(EncodeBlock(blk)[0], 6 - j) == Msb(blk[j])
  {
    HeaderBit(blk, 6 - j);
  }

  /** Where input byte 7k + j ends up: its low seven bits at output index
      8k + 1 + j, its bit 7 in bit `6 - j` of the header at output index 8k. */
  lemma {:induction false} EncodeLayout(data: seq<byte>, k: nat, j: nat)
    requires j < 7 && 7 * k + j < |data|
    ensures 8 * k + 1 + j < |Encode(data)|
    ensures Encode(data)[8 * k + 1 + j] == Body(data[7 * k + j])
    ensures Bit(Encode(data)[8 * k], 6 - j) == Msb(data[7 * k + j])
    decreases k
  {
    if |data| <= 7 {
      EncodeBlockLayout(data, j);
    } else {
      var blk, rest := data[..7], data[7..];
      var eb, er := EncodeBlock(blk), Encode(rest);
      assert Encode(data) == eb + er;
      if k == 0 {
        EncodeBlockLayout(blk, j);
      } else {
        var k0 := k - 1;
        EncodeLayout(rest, k0, j);
        assert rest[7 * k0 + j] == data[7 * k + j];
        ConcatAt(eb, er, 8 * k0 + 1 + j, 8 * k + 1 + j);
        ConcatAt(eb, er, 8 * k0, 8 * k);
      }
    }
  }

  /** Indexing past the first part of a concatenation. */
  lemma ConcatAt(a: seq<byte>, b: seq<byte>, i: nat, i2: nat)
    requires i < |b| && i2 == |a| + i
    ensures i2 < |a + b| && (a + b)[i2] == b[i]
  {
  }

  /** Encoding a payload whose length is a multiple of 7 and then another is
      encoding their concatenation: blocks do not interact. */
  lemma {:induction false} EncodeAppend(a: seq<byte>, b: seq<byte>, k: nat)
    requires |a| == 7 * k
    ensures Encode(a + b) == Encode(a) + Encode(b)
  {
    if |a| == 0 {
      assert a + b == b;
    } else if |a + b| > 7 {
      assert (a + b)[..7] == a[..7];
      assert (a + b)[7..] == a[7..] + b;
      EncodeAppend(a[7..], b, k - 1);
      if |a| == 7 {
        assert a[7..] == [];
        assert a[..7] == a;
      }
    } else {
      assert b == [] && a + b == a;
    }
  }

  // ---------------------------------------------------------------------------
  // Properties of the decoding

  /** The decoded length is the input length less one header per started
      block of 8. */
  lemma {:induction false} DecodeLength(s: seq<byte>)
    ensures |Decode(s)| == DecodedLength(|s|)
    decreases |s|
  {
    if |s| > 8 {
      DecodeLength(s[8..]);
    }
  }

  /** Where the decoder puts the body b at input index 8q + r (r in 1..7):
      at output index 7q + r - 1, with bit `7 - r` of the header h at index
      8q in its bit 7. */
  lemma {:induction false} DecodeAt(s: seq<byte>, q: nat, r: nat, h: byte, b: byte)
    requires 1 <= r <= 7 && 8 * q + r < |s| && h == s[8 * q] && b == s[8 * q + r]
    ensures 7 * q + r - 1 < |Decode(s)|
    ensures Decode(s)[7 * q + r - 1] == DecodedByte(h, r, b)
    decreases q
  {
    if q == 0 {
      DecodeFirst(s, r, h, b);
    } else {
      BlockShift(s, q, r);
      DecodeAt(s[8..], q - 1, r, h, b);
      DecodeShift(s, 7 * (q - 1) + r - 1, 7 * q + r - 1);
    }
  }

  /** Position 8q + r of s is position 8(q - 1) + r of s[8..]. */
  lemma BlockShift(s: seq<byte>, q: nat, r: nat)
    requires 1 <= q && r <= 7 && 8 * q + r < |s|
    ensures 8 * (q - 1) + r < |s[8..]|
    ensures s[8..][8 * (q - 1)] == s[8 * q] && s[8..][8 * (q - 1) + r] == s[8 * q + r]
  {
  }

  /** Past the first block, the decoding of s is that of the rest of s,
      7 bytes on. */
  lemma DecodeShift(s: seq<byte>, k: nat, k2: nat)
    requires |s| > 8 && k < |Decode(s[8..])| && k2 == k + 7
    ensures k2 < |Decode(s)| && Decode(s)[k2] == Decode(s[8..])[k]
  {
    DecodeSplit(s);
    ConcatAt(DecodeBlockBodies(s[..8]), Decode(s[8..]), k, k2);
  }

  /** A stream longer than one block decodes block by block. */
  lemma DecodeSplit(s: seq<byte>)
    requires |s| > 8
    ensures Decode(s) == DecodeBlockBodies(s[..8]) + Decode(s[8..])
    ensures |DecodeBlockBodies(s[..8])| == 7
  {
  }

  /** The bodies of the first block decode against the first header. */
  lemma DecodeFirst(s: seq<byte>, r: nat, h: byte, b: byte)
    requires 1 <= r <= 7 && r < |s| && h == s[0] && b == s[r]
    ensures r - 1 < |Decode(s)|
    ensures Decode(s)[r - 1] == DecodedByte(h, r, b)
  {
    if |s| > 8 {
      DecodeSplit(s);
      var blk := s[..8];
      assert blk[0] == h && blk[r] == b;
      assert DecodeBlockBodies(blk)[r - 1] == DecodedByte(h, r, b);
    }
  }


  /** A body byte with bit 7 set decodes to a byte with bit 7 set, whatever
      its header says: the decoder does not mask bodies. */
  lemma UnmaskedBody(header: byte, pos: nat, body: byte)
    requires 1 <= pos <= 7 && body >= 0x80
    ensures DecodedByte(header, pos, body) >= 0x80
  {
  }

  /** One more input byte, at index 8q + r: a header (r == 0) adds nothing to
      the decoded output, a body adds one byte at the end. This is the step
      of the decoder's loop. */
  lemma {:induction false} DecodeStep(s: seq<byte>, q: nat, r: nat, h: byte, b: byte)
    requires r < 8 && |s| == 8 * q + r + 1 && h == s[8 * q] && b == s[8 * q + r]
    ensures Decode(s) == Decode(s[..8 * q + r]) + (if r == 0 then [] else [DecodedByte(h, r, b)])
    decreases q
  {
    if q == 0 {
      DecodeFirstStep(s, r, h, b);
    } else {
      BlockShift(s, q, r);
      DecodeStep(s[8..], q - 1, r, h, b);
      DecodeSplit(s);
      DecodePrefixSplit(s, 8 * q + r);
      AppendAssoc(DecodeBlockBodies(s[..8]), Decode(s[8..][..8 * q + r - 8]),
                  if r == 0 then [] else [DecodedByte(h, r, b)]);
    }
  }

  /** DecodeStep within the first block. */
  lemma DecodeFirstStep(s: seq<byte>, r: nat, h: byte, b: byte)
    requires r < 8 && |s| == r + 1 && h == s[0] && b == s[r]
    ensures Decode(s) == Decode(s[..r]) + (if r == 0 then [] else [DecodedByte(h, r, b)])
  {
    if r > 0 {
      var p := s[..r];
      forall k | 0 <= k < r - 1
        ensures DecodeBlockBodies(s)[k] == DecodeBlockBodies(p)[k]
      {
        assert p[0] == s[0] && p[k + 1] == s[k + 1];
      }
      assert DecodeBlockBodies(s)[r - 1] == DecodedByte(h, r, b);
      SnocOf(DecodeBlockBodies(s), DecodeBlockBodies(p), DecodedByte(h, r, b));
    }
  }

  /** A sequence that agrees with p and then holds x is p + [x]. */
  lemma SnocOf<T>(a: seq<T>, p: seq<T>, x: T)
    requires |a| == |p| + 1 && a[|p|] == x
    requires forall k :: 0 <= k < |p| ==> a[k] == p[k]
    ensures a == p + [x]
  {
  }

  /** A prefix of at least one whole block decodes as that block followed by
      the rest of the prefix. */
  lemma DecodePrefixSplit(s: seq<byte>, n: nat)
    requires 8 <= n < |s|
    ensures Decode(s[..n]) == DecodeBlockBodies(s[..8]) + Decode(s[8..][..n - 8])
  {
    assert s[..n][..8] == s[..8];
    if n == 8 {
      assert s[8..][..0] == [];
    } else {
      assert s[..n][8..] == s[8..][..n - 8];
    }
  }

  /** Byte k of a block, encoded (its header and its body) and decoded again,
      is itself. */
  lemma DecodeEncodedByte(b: seq<byte>, k: nat)
    requires k < |b| <= 7
    ensures DecodedByte(Header(b), k + 1, Body(b[k])) == b[k]
  {
    HeaderBit(b, 6 - k);
    SplitJoin(b[k]);
  }

  /** Decoding an encoded block gives the block back. */
  lemma DecodeEncodeBlock(b: seq<byte>)
    requires 1 <= |b| <= 7
    ensures DecodeBlockBodies(EncodeBlock(b)) == b
  {
    var e := EncodeBlock(b);
    var d := DecodeBlockBodies(e);
    forall k | 0 <= k < |b|
      ensures d[k] == b[k]
    {
      assert e[0] == Header(b) && e[k + 1] == Body(b[k]);
      DecodeEncodedByte(b, k);
    }
  }

  /** Round trip: decoding what the encoder produces gives back exactly the
      original payload, for every length including 0 and non-multiples of 7. */
  lemma {:induction false} RoundTrip(data: seq<byte>)
    ensures Decode(Encode(data)) == data
    decreases |data|
  {
    if |data| == 0 {
    } else if |data| <= 7 {
      DecodeEncodeBlock(data);
    } else {
      var blk, rest := data[..7], data[7..];
      var e, f := EncodeBlock(blk), Encode(rest);
      DecodeEncodeBlock(blk);
      RoundTrip(rest);
      assert (e + f)[..8] == e;
      assert (e + f)[8..] == f;
      assert blk + rest == data;
    }
  }

  /** The header of a block grows by one byte exactly as the encoder's
      `outSysEx[0] |= (msb << (6 - count))` does. */
  lemma HeaderSnoc(b: seq<byte>, x: byte, hd: byte, c: nat)
    requires |b| < 7 && hd == Header(b) && c == |b|
    ensures Header(b + [x]) == hd | Place(Msb(x), 6 - c)
  {
    HeaderOfPrefix(b + [x], b, |b|);
  }

  /** A header depends only on the bytes folded into it so far. */
  lemma {:induction false} HeaderOfPrefix(b: seq<byte>, c: seq<byte>, n: nat)
    requires n <= |b| && n <= |c| && n <= 7 && b[..n] == c[..n]
    ensures HeaderOf(b, n) == HeaderOf(c, n)
  {
    if n > 0 {
      assert b[n - 1] == b[..n][n - 1] == c[..n][n - 1] == c[n - 1];
      assert b[..n - 1] == b[..n][..n - 1] == c[..n][..n - 1] == c[..n - 1];
      HeaderOfPrefix(b, c, n - 1);
    }
  }

  /** What the encoder has written after consuming the bytes s: the encoded
      full blocks, then the header and the bodies of the open block (a lone
      0 header right after a full block). */
  function Written(s: seq<byte>, q: nat): seq<byte>
    requires 7 * q <= |s| < 7 * q + 7
  {
    Encode(s[..7 * q]) + [Header(s[7 * q..])] + Bodies(s[7 * q..])
  }

  /** Full blocks encode to 8 bytes each. */
  lemma {:induction false} EncodeBlocksLength(a: seq<byte>, k: nat)
    requires |a| == 7 * k
    ensures |Encode(a)| == 8 * k
  {
    if k > 1 {
      EncodeBlocksLength(a[7..], k - 1);
    }
  }

  /** Replacing the element between a prefix and a suffix, then appending. */
  lemma Splice(e: seq<byte>, h: byte, h2: byte, b: seq<byte>, b2: seq<byte>, y: byte)
    requires b2 == b + [y]
    ensures (e + [h] + b)[|e| := h2] + [y] == e + [h2] + b2
  {
    var l := (e + [h] + b)[|e| := h2] + [y];
    var r := e + [h2] + (b + [y]);
    assert |l| == |r|;
    forall i | 0 <= i < |l|
      ensures l[i] == r[i]
    {
      if i < |e| {
      } else if i == |e| {
      } else if i < |e| + 1 + |b| {
        assert l[i] == b[i - |e| - 1];
      }
    }
  }

  /** The bodies of a block grow by the body of each byte added. */
  lemma BodiesSnoc(part: seq<byte>, x: byte)
    ensures Bodies(part + [x]) == Bodies(part) + [Body(x)]
  {
    var l, r := Bodies(part + [x]), Bodies(part) + [Body(x)];
    assert |l| == |r|;
    forall i | 0 <= i < |l|
      ensures l[i] == r[i]
    {
      if i < |part| {
        assert (part + [x])[i] == part[i];
      }
    }
  }

  /** One more input byte x: the open block's header at `at` gains x's high
      bit, its body is appended, and when the block is full a 0 header
      follows. */
  lemma WrittenStep(s: seq<byte>, q: nat, x: byte, at: nat, c: nat, q2: nat, hd: byte)
    requires 7 * q <= |s| < 7 * q + 7 && at == 8 * q && c == |s| - 7 * q
    requires q2 == (if c == 6 then q + 1 else q)
    requires at < |Written(s, q)| && hd == Written(s, q)[at]
    ensures Written(s + [x], q2) == Advance(Written(s, q), at, c, hd | Place(Msb(x), 6 - c), Body(x), 0)
  {
    OpenHeader(s, q, x, c, hd);
    WrittenSplice(s, q, x);
    var t := s + [x];
    if c == 6 {
      WrittenClose(s, q, x);
    } else {
      assert t[..7 * q] == s[..7 * q];
      assert t[7 * q..] == s[7 * q..] + [x];
    }
  }

  /** The open block's header, as written, gains x's high bit. */
  lemma OpenHeader(s: seq<byte>, q: nat, x: byte, c: nat, hd: byte)
    requires 7 * q <= |s| < 7 * q + 7 && c == |s| - 7 * q
    requires 8 * q < |Written(s, q)| && hd == Written(s, q)[8 * q]
    ensures hd | Place(Msb(x), 6 - c) == Header(s[7 * q..] + [x])
  {
    OpenHeaderAt(s, q);
    HeaderSnoc(s[7 * q..], x, hd, c);
  }

  /** The written bytes hold the open block's header at 8q. */
  lemma OpenHeaderAt(s: seq<byte>, q: nat)
    requires 7 * q <= |s| < 7 * q + 7
    ensures 8 * q < |Written(s, q)| && Written(s, q)[8 * q] == Header(s[7 * q..])
    ensures |s[7 * q..]| == |s| - 7 * q
  {
    EncodeBlocksLength(s[..7 * q], q);
  }

  /** The bytes written so far, with the open block extended by x. */
  lemma WrittenSplice(s: seq<byte>, q: nat, x: byte)
    requires 7 * q <= |s| < 7 * q + 7
    ensures 8 * q < |Written(s, q)|
    ensures Written(s, q)[8 * q := Header(s[7 * q..] + [x])] + [Body(x)]
      == Encode(s[..7 * q]) + [Header(s[7 * q..] + [x])] + Bodies(s[7 * q..] + [x])
  {
    var done := s[..7 * q];
    var part := s[7 * q..];
    var e := Encode(done);
    EncodeBlocksLength(done, q);
    assert Written(s, q) == e + [Header(part)] + Bodies(part);
    BodiesSnoc(part, x);
    Splice(e, Header(part), Header(part + [x]), Bodies(part), Bodies(part + [x]), Body(x));
  }

  /** The step that completes a block. */
  lemma WrittenClose(s: seq<byte>, q: nat, x: byte)
    requires |s| == 7 * q + 6
    ensures Written(s + [x], q + 1)
      == Encode(s[..7 * q]) + [Header(s[7 * q..] + [x])] + Bodies(s[7 * q..] + [x]) + [0]
  {
    var part := s[7 * q..] + [x];
    SplitSnoc(s, 7 * q, x);
    EncodeAppend(s[..7 * q], part, q);
    OpenBlockEncode(part);
    assert Header([]) == 0;
  }

  /** Once all input is consumed, the written bytes are the encoding, plus the
      0 header of an empty block when the length is a multiple of 7. */
  lemma WrittenDone(s: seq<byte>, q: nat)
    requires 7 * q <= |s| < 7 * q + 7
    ensures Written(s, q) == Encode(s) + (if |s| == 7 * q then [0] else [])
  {
    if |s| == 7 * q {
      WrittenDoneEven(s, q);
    } else {
      WrittenDoneOpen(s, q);
    }
  }

  lemma WrittenDoneEven(s: seq<byte>, q: nat)
    requires |s| == 7 * q
    ensures Written(s, q) == Encode(s) + [0]
  {
    assert s[7 * q..] == [];
    assert s[..7 * q] == s;
    assert Header([]) == 0;
    assert Bodies([]) == [];
  }

  lemma WrittenDoneOpen(s: seq<byte>, q: nat)
    requires 7 * q < |s| < 7 * q + 7
    ensures Written(s, q) == Encode(s)
  {
    var done, part := s[..7 * q], s[7 * q..];
    TakeDrop(s, 7 * q);
    EncodeAppend(done, part, q);
    OpenBlockEncode(part);
    AppendAssoc(Encode(done), [Header(part)], Bodies(part));
  }

  /** A sequence is its prefix followed by the rest. */
  lemma TakeDrop<T>(s: seq<T>, k: nat)
    requires k <= |s|
    ensures s[..k] + s[k..] == s
  {
  }

  /** s + [x], all of it, split at k, and nothing after it. */
  lemma SplitSnoc<T>(s: seq<T>, k: nat, x: T)
    requires k <= |s|
    ensures (s + [x])[..|s| + 1] == s[..k] + (s[k..] + [x])
    ensures (s + [x])[|s| + 1..] == []
  {
    assert (s + [x])[..|s| + 1] == s + [x];
    TakeDrop(s, k);
  }

  /** A partial block encodes to its header and bodies. */
  lemma OpenBlockEncode(part: seq<byte>)
    requires 0 < |part| <= 7
    ensures Encode(part) == [Header(part)] + Bodies(part)
  {
  }

  lemma AppendAssoc(a: seq<byte>, b: seq<byte>, c: seq<byte>)
    ensures a + b + c == a + (b + c)
  {
  }

  // ---------------------------------------------------------------------------
  // An output buffer as the bytes written so far over its former contents

  /** The buffer s holds the bytes w written so far over its former contents
      orig. */
  ghost predicate Image<T>(s: seq<T>, w: seq<T>, orig: seq<T>)
  {
    |w| <= |orig| == |s| && s == w + orig[|w|..]
  }

  /** Storing y just past the written bytes. */
  lemma AppendImage<T>(s: seq<T>, w: seq<T>, orig: seq<T>, y: T)
    requires Image(s, w, orig) && |w| < |orig|
    ensures Image(s[|w| := y], w + [y], orig)
  {
    assert orig[|w|..][1..] == orig[|w| + 1..];
    assert s[|w| := y] == (w + [y]) + orig[|w| + 1..];
  }

  /** The writes of one pass of the encoder loop on the buffer s, whose open
      block has its header at h and c bytes already: the header becomes v,
      the body y goes after the block's bytes, and the pass that fills the
      block writes the next header z. */
  function Pass<T>(s: seq<T>, h: nat, c: nat, v: T, y: T, z: T): (r: seq<T>)
    requires c < 7 && h + 1 + c < |s| && (c == 6 ==> h + 8 < |s|)
    ensures |r| == |s|
  {
    if c == 6 then s[h := v][h + 7 := y][h + 8 := z] else s[h := v][h + 1 + c := y]
  }

  /** The same pass on the written bytes w alone, which end with the open
      block: the header becomes v, y is appended, and z after it when the
      pass fills the block. */
  function Advance<T>(w: seq<T>, h: nat, c: nat, v: T, y: T, z: T): (r: seq<T>)
    requires h < |w|
    ensures |r| == |w| + (if c == 6 then 2 else 1)
  {
    if c == 6 then w[h := v] + [y] + [z] else w[h := v] + [y]
  }

  /** On a buffer holding the written bytes w over orig, a pass leaves the
      advanced written bytes over orig. */
  lemma PassImage<T>(w: seq<T>, orig: seq<T>, s: seq<T>, h: nat, c: nat, v: T, y: T, z: T)
    requires c < 7 && h + 1 + c == |w| && |w| + (if c == 6 then 2 else 1) <= |orig|
    requires Image(s, w, orig)
    ensures h + 1 + c < |s| && (c == 6 ==> h + 8 < |s|) && s[h] == w[h]
    ensures Image(Pass(s, h, c, v, y, z), Advance(w, h, c, v, y, z), orig)
  {
    var r := orig[|w|..];
    if c == 6 {
      assert r[2..] == orig[|w| + 2..];
      assert s[h := v][h + 7 := y][h + 8 := z] == (w[h := v] + [y] + [z]) + r[2..];
    } else {
      assert r[1..] == orig[|w| + 1..];
      assert s[h := v][h + 1 + c := y] == (w[h := v] + [y]) + r[1..];
    }
  }

  // ---------------------------------------------------------------------------
  // The loop of `encodeSysEx`

  /** The block and the position in it of input index i = j + 1. */
  lemma BlockStep(j: nat, i: nat)
    requires i == j + 1
    ensures i / 7 == (if j % 7 == 6 then j / 7 + 1 else j / 7)
    ensures i % 7 == (if j % 7 == 6 then 0 else j % 7 + 1)
  {
  }

  /** The written bytes have a header per started block of 7. */
  lemma WrittenLength(s: seq<byte>, q: nat)
    requires 7 * q <= |s| < 7 * q + 7
    ensures |Written(s, q)| == |s| + q + 1
  {
    EncodeBlocksLength(s[..7 * q], q);
  }

  /** The written bytes after input byte x == d[j], as Advance. */
  lemma WrittenAdvance(d: seq<byte>, i: nat, j: nat, x: byte, w: seq<byte>, at: nat, c: nat, hd: byte, v: byte)
    requires j + 1 == i <= |d|
    requires x == d[j]
    requires w == Written(d[..j], j / 7)
    requires at == 8 * (j / 7)
    requires c == j % 7
    requires at < |w| && hd == w[at] && v == hd | Place(Msb(x), 6 - c)
    ensures Written(d[..i], i / 7) == Advance(w, at, c, v, Body(x), 0)
  {
    assert d[..i] == d[..j] + [x];
    WrittenStep(d[..j], j / 7, x, at, c, i / 7, hd);
  }

  /** The invariant of the encoder loop after its first i passes over d:
      `outLength` is the header index of the open block, `count` the bytes
      in it, and the buffer s holds the bytes written so far over its
      former contents buf0. */
  ghost predicate EncodeInv(d: seq<byte>, i: nat, buf0: seq<byte>, s: seq<byte>, outLength: nat, count: nat)
  {
    i <= |d| && outLength == 8 * (i / 7) && count == i % 7 && Image(s, Written(d[..i], i / 7), buf0)
  }

  /** The invariant carried across the pass over x == d[i]. */
  lemma EncodeInvStep(d: seq<byte>, i: nat, x: byte, buf0: seq<byte>, s: seq<byte>, outLength: nat, count: nat)
    requires i < |d| && x == d[i] && EncodeLastIndex(|d|) < |buf0|
    requires EncodeInv(d, i, buf0, s, outLength, count)
    ensures count < 7 && outLength + 1 + count < |s| && (count == 6 ==> outLength + 8 < |s|)
    ensures EncodeInv(d, i + 1, buf0, Pass(s, outLength, count, s[outLength] | Place(Msb(x), 6 - count), Body(x), 0),
                      if count == 6 then outLength + 8 else outLength, if count == 6 then 0 else count + 1)
  {
    BlockStep(i, i + 1);
    WrittenLength(d[..i], i / 7);
    WrittenImageStep(d, i, x, buf0, s, outLength, count, s[outLength] | Place(Msb(x), 6 - count), Body(x));
  }

  /** The buffer half of EncodeInvStep: v and y are the header and the body
      the pass writes. */
  lemma WrittenImageStep(d: seq<byte>, i: nat, x: byte, buf0: seq<byte>, s: seq<byte>, outLength: nat, count: nat, v: byte, y: byte)
    requires i < |d| && x == d[i] && EncodeLastIndex(|d|) < |buf0|
    requires outLength == 8 * (i / 7) && count == i % 7
    requires Image(s, Written(d[..i], i / 7), buf0)
    requires outLength < |s| && v == s[outLength] | Place(Msb(x), 6 - count) && y == Body(x)
    ensures outLength + 1 + count < |s| && (count == 6 ==> outLength + 8 < |s|)
    ensures Image(Pass(s, outLength, count, v, y, 0), Written(d[..i + 1], (i + 1) / 7), buf0)
  {
    var q := i / 7;
    DivSeven(i, q, count);
    WrittenLength(d[..i], q);
    PassImage(Written(d[..i], q), buf0, s, outLength, count, v, y, 0);
    WrittenAdvance(d, i + 1, i, x, Written(d[..i], q), outLength, count, s[outLength], v);
  }

  /** Index i is at position c of block q. */
  lemma DivSeven(i: nat, q: nat, c: nat)
    requires q == i / 7 && c == i % 7
    ensures i == 7 * q + c && c < 7
  {
  }

  /** Before the first pass: byte 0 cleared is the header of the empty block. */
  lemma EncodeInvStart(d: seq<byte>, buf0: seq<byte>)
    requires 0 < |buf0|
    ensures EncodeInv(d, 0, buf0, buf0[0 := 0], 0, 0)
  {
    assert d[..0] == [];
    assert Written([], 0) == [0] by {
      assert Header([]) == 0;
      assert Bodies([]) == [];
    }
    assert buf0[0 := 0] == [0] + buf0[1..];
  }

  /** After the last pass over the n bytes of d: the length the source
      returns is EncodedLength, the buffer starts with the encoding, a 0
      header follows it when n is a multiple of 7, and the buffer past
      EncodeLastIndex is as before. */
  lemma EncodeInvDone(d: seq<byte>, n: nat, buf0: seq<byte>, s: seq<byte>, outLength: nat, count: nat, r: nat)
    requires n == |d| && EncodeLastIndex(n) < |buf0|
    requires EncodeInv(d, n, buf0, s, outLength, count)
    requires r == outLength + count + (if count != 0 then 1 else 0)
    ensures r == EncodedLength(n) && r <= EncodeLastIndex(n) + 1 <= |s|
    ensures s[..r] == Encode(d)
    ensures n % 7 == 0 ==> s[r] == 0
    ensures s[EncodeLastIndex(n) + 1..] == buf0[EncodeLastIndex(n) + 1..]
  {
    assert d[..n] == d;
    var q := n / 7;
    WrittenDone(d, q);
    WrittenLength(d, q);
    EncodeLength(d);
    ImageDone(s, Written(d, q), buf0, Encode(d), if n == 7 * q then [0] else [], r);
  }

  /** A buffer holding the written bytes enc + tail over orig starts with
      enc, holds tail next, and keeps orig after the written bytes. */
  lemma ImageDone<T>(s: seq<T>, w: seq<T>, orig: seq<T>, enc: seq<T>, tail: seq<T>, r: nat)
    requires Image(s, w, orig) && w == enc + tail && r == |enc|
    ensures r + |tail| <= |s| && s[..r] == enc
    ensures forall k :: 0 <= k < |tail| ==> s[r + k] == tail[k]
    ensures s[|w|..] == orig[|w|..]
  {
    assert s[..r] == w[..r];
  }

  /** The body of the encoder loop, on the output buffer: the input byte's
      top bit goes into the open block's header (`msb << (6 - count)`, see
      PlaceIsShift), its low seven bits after the block's bytes, and the
      byte that fills the block moves on to the next block and clears its
      header. */
  method EncodePass(outSysEx: array<byte>, data: byte, outLength: nat, count: nat)
    returns (outLength2: nat, count2: nat)
    requires count < 7 && outLength + 1 + count < outSysEx.Length
    requires count == 6 ==> outLength + 8 < outSysEx.Length
    modifies outSysEx
    ensures outSysEx[..] == Pass(old(outSysEx[..]), outLength, count,
      old(outSysEx[..])[outLength] | Place(Msb(data), 6 - count), Body(data), 0)
    ensures outLength2 == (if count == 6 then outLength + 8 else outLength)
    ensures count2 == (if count == 6 then 0 else count + 1)
  {
    var msb := Msb(data);
    var body := Body(data);
    outSysEx[outLength] := outSysEx[outLength] | Place(msb, 6 - count);
    outSysEx[outLength + 1 + count] := body;
    outLength2, count2 := outLength, count + 1;
    if count == 6 {
      outLength2 := outLength + 8;
      outSysEx[outLength2] := 0;
      count2 := 0;
    }
  }

  /** `encodeSysEx`: encodes inData[0..inLength) into outSysEx and returns the
      encoded length. The caller's buffer must hold every index the loop
      writes: up to EncodeLastIndex(inLength), one past the returned length
      when inLength is a multiple of 7. */
  method EncodeSysEx(inData: array<byte>, outSysEx: array<byte>, inLength: nat) returns (r: nat)
    requires inLength <= inData.Length
    requires inData != outSysEx
    requires EncodeLastIndex(inLength) < outSysEx.Length
    modifies outSysEx
    ensures r == EncodedLength(inLength)
    ensures outSysEx[..r] == Encode(inData[..inLength])
    ensures inLength % 7 == 0 ==> outSysEx[r] == 0
    ensures outSysEx[EncodeLastIndex(inLength) + 1..] == old(outSysEx[EncodeLastIndex(inLength) + 1..])
  {
    ghost var d := inData[..inLength];
    ghost var buf0 := outSysEx[..];
    var outLength: nat := 0;
    var count: nat := 0;
    outSysEx[0] := 0;
    EncodeInvStart(d, buf0);
    for i := 0 to inLength
      invariant EncodeInv(d, i, buf0, outSysEx[..], outLength, count)
    {
      EncodeInvStep(d, i, inData[i], buf0, outSysEx[..], outLength, count);
      BlockStep(i, i + 1);
      outLength, count := EncodePass(outSysEx, inData[i], outLength, count);
    }
    r := outLength + count + (if count != 0 then 1 else 0);
    EncodeInvDone(d, inLength, buf0, outSysEx[..], outLength, count, r);
  }

  // ---------------------------------------------------------------------------
  // The loop of `decodeSysEx`

  /** `byteIndex--` on the source's 8-bit unsigned byteIndex: 0 wraps to 255. */
  function Decrement(b: nat): (r: nat)
    requires b < 256
    ensures r < 256 && (r + 1) % 256 == b
  {
    if b == 0 then 255 else b - 1
  }

  /** A body at input index i of an n-byte input is emitted inside the first
      DecodedLength(n) output bytes. */
  lemma EmitBound(i: nat, n: nat)
    requires i < n && i % 8 != 0
    ensures DecodedLength(i) + 1 == DecodedLength(i + 1) <= DecodedLength(n)
  {
  }

  /** The invariant of the decoder loop after its first i passes over s:
      `count` bytes are emitted, the buffer out holds Decode(s[..i]) over its
      former contents buf0, and inside a block `msbStorage` is the block's
      header and `byteIndex` the header bit of the next body. */
  ghost predicate DecodeInv(s: seq<byte>, i: nat, buf0: seq<byte>, out: seq<byte>, count: nat, msbStorage: byte, byteIndex: nat)
  {
    i <= |s| && count == DecodedLength(i) && byteIndex < 256
    && (i % 8 != 0 ==> msbStorage == s[8 * (i / 8)] && byteIndex == 7 - i % 8)
    && Image(out, Decode(s[..i]), buf0)
  }

  /** Before the first pass nothing is emitted. */
  lemma DecodeInvStart(s: seq<byte>, buf0: seq<byte>)
    ensures DecodeInv(s, 0, buf0, buf0, 0, 0, 0)
  {
    assert s[..0] == [];
  }

  /** Input index j = i + 1 in the blocks of 8. */
  lemma DecodeIndexStep(i: nat, j: nat)
    requires j == i + 1
    ensures i % 8 == 0 ==> j / 8 == i / 8 && j % 8 == 1 && DecodedLength(j) == DecodedLength(i)
    ensures i % 8 != 0 && j % 8 != 0 ==> j / 8 == i / 8 && j % 8 == i % 8 + 1
    ensures i % 8 != 0 ==> DecodedLength(j) == DecodedLength(i) + 1
  {
  }

  /** A header at index i starts a block: nothing is emitted. */
  lemma DecodeInvHeader(s: seq<byte>, i: nat, x: byte, buf0: seq<byte>, out: seq<byte>, count: nat, msbStorage: byte, byteIndex: nat)
    requires i < |s| && x == s[i] && i % 8 == 0
    requires DecodeInv(s, i, buf0, out, count, msbStorage, byteIndex)
    ensures DecodeInv(s, i + 1, buf0, out, count, x, 6)
  {
    DecodeIndexStep(i, i + 1);
    DecodeHeaderStep(s, i, i / 8);
  }

  /** Reading a header emits nothing. */
  lemma DecodeHeaderStep(s: seq<byte>, i: nat, q: nat)
    requires i < |s| && i == 8 * q
    ensures Decode(s[..i + 1]) == Decode(s[..i])
  {
    var t := s[..i + 1];
    DecodeStep(t, q, 0, t[8 * q], t[8 * q]);
    assert t[..i] == s[..i];
  }

  /** A body x at index i is emitted after the bytes decoded so far. */
  lemma DecodeInvBody(s: seq<byte>, i: nat, x: byte, buf0: seq<byte>, out: seq<byte>, count: nat, msbStorage: byte, byteIndex: nat)
    requires i < |s| && x == s[i] && i % 8 != 0 && DecodedLength(|s|) <= |buf0|
    requires DecodeInv(s, i, buf0, out, count, msbStorage, byteIndex)
    ensures count < |out| && byteIndex <= 6
    ensures DecodeInv(s, i + 1, buf0, out[count := ((Shr(msbStorage, byteIndex) & 1) << 7) | x], count + 1,
                      msbStorage, Decrement(byteIndex))
  {
    DecodeIndexStep(i, i + 1);
    DecodeImageStep(s, i, x, buf0, out, i / 8, i % 8, count);
    DecodedByteIs(s[8 * (i / 8)], i % 8, x, msbStorage, byteIndex);
  }

  /** DecodedByte is the source's `((msbStorage >> byteIndex) & 1) << 7 | body`. */
  lemma DecodedByteIs(header: byte, pos: nat, body: byte, msbStorage: byte, byteIndex: nat)
    requires 1 <= pos <= 7 && msbStorage == header && byteIndex == 7 - pos
    ensures DecodedByte(header, pos, body) == ((Shr(msbStorage, byteIndex) & 1) << 7) | body
  {
  }

  /** The buffer half of DecodeInvBody. */
  lemma DecodeImageStep(s: seq<byte>, i: nat, x: byte, buf0: seq<byte>, out: seq<byte>, q: nat, r: nat, count: nat)
    requires i < |s| && x == s[i] && q == i / 8 && r == i % 8 && r != 0 && DecodedLength(|s|) <= |buf0|
    requires count == DecodedLength(i)
    requires Image(out, Decode(s[..i]), buf0)
    ensures count < |out|
    ensures Image(out[count := DecodedByte(s[8 * q], r, x)], Decode(s[..i + 1]), buf0)
  {
    var t := s[..i + 1];
    DecodeStep(t, q, r, s[8 * q], x);
    assert t[..i] == s[..i];
    DecodeLength(s[..i]);
    EmitBound(i, |s|);
    AppendImage(out, Decode(s[..i]), buf0, DecodedByte(s[8 * q], r, x));
  }

  /** After the last pass over s: the buffer starts with Decode(s) and is
      as before from DecodedLength(|s|) on. */
  lemma DecodeInvDone(s: seq<byte>, n: nat, buf0: seq<byte>, out: seq<byte>, count: nat, msbStorage: byte, byteIndex: nat)
    requires n == |s| && DecodeInv(s, n, buf0, out, count, msbStorage, byteIndex)
    ensures count <= |out| && out[..count] == Decode(s)
    ensures out[count..] == buf0[count..]
  {
    assert s[..n] == s;
    DecodeLength(s);
    ImageDone(out, Decode(s), buf0, Decode(s), [], count);
  }

  /** `decodeSysEx`: decodes inSysEx[0..inLength) into outData and returns the
      decoded length. Every index that is a multiple of 8 is read as a header. */
  method DecodeSysEx(inSysEx: array<byte>, outData: array<byte>, inLength: nat) returns (count: nat)
    requires inLength <= inSysEx.Length
    requires inSysEx != outData
    requires DecodedLength(inLength) <= outData.Length
    modifies outData
    ensures count == DecodedLength(inLength)
    ensures outData[..count] == Decode(inSysEx[..inLength])
    ensures outData[count..] == old(outData[count..])
  {
    ghost var s := inSysEx[..inLength];
    ghost var buf0 := outData[..];
    count := 0;
    var msbStorage: byte := 0;
    var byteIndex: nat := 0;
    DecodeInvStart(s, buf0);
    for i := 0 to inLength
      invariant DecodeInv(s, i, buf0, outData[..], count, msbStorage, byteIndex)
    {
      if i % 8 == 0 {
        DecodeInvHeader(s, i, inSysEx[i], buf0, outData[..], count, msbStorage, byteIndex);
        msbStorage := inSysEx[i];
        byteIndex := 6;
      } else {
        DecodeInvBody(s, i, inSysEx[i], buf0, outData[..], count, msbStorage, byteIndex);
        var body := inSysEx[i];
        var msb := (Shr(msbStorage, byteIndex) & 1) << 7;
        byteIndex := Decrement(byteIndex);
        outData[count] := msb | body;
        count := count + 1;
      }
    }
    DecodeInvDone(s, inLength, buf0, outData[..], count, msbStorage, byteIndex);
  }
}
