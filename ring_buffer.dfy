/** The fixed-size FIFO of src/XE_MIDI_RingBuffer.hpp, specialised to bytes
    (the element type of the USB transport's transmit and receive buffers).

    The source keeps two pointers into its array; here they are the indices
    `writeHead` and `readHead` in [0, size). Writing never checks for room:
    the write that fills the last free slot brings the write head onto the
    read head, after which the buffer reports itself empty. Reading never
    checks for data: a read on an empty buffer returns the slot under the
    read head and moves on.

    The datatype `Buffer` is the buffer as a value and the functions on it
    are the specification; the class `RingBuffer` holds the array and the
    heads and its methods are proved against those functions. */
module Ring {
  import opened Bytes

  // ---------------------------------------------------------------------------
  // The buffer as a value

  /** The slots and the two heads. */
  datatype Buffer = Buffer(slots: seq<byte>, writeHead: nat, readHead: nat)
  {
    ghost predicate Valid()
    {
      0 < |slots| && writeHead < |slots| && readHead < |slots|
    }
  }

  /** A head moved on by one slot, back to slot 0 past the end. */
  function Next(head: nat, size: nat): (r: nat)
    requires head < size
    ensures r < size && r == (head + 1) % size
  {
    if head + 1 >= size then ModWrap(head + 1, size); 0
    else ModBelow(head + 1, size); head + 1
  }

  /** The three cases of a remainder the heads need: an index already in
      range, one a full turn too far, and one a full turn short. */
  lemma ModBelow(a: int, n: int)
    requires 0 <= a < n
    ensures a % n == a
  {
  }

  lemma ModWrap(a: int, n: int)
    requires 0 < n <= a < 2 * n
    ensures a % n == a - n
  {
    assert (a - n) % n == a - n;
  }

  lemma ModShort(a: int, n: int)
    requires 0 < n && -n <= a < 0
    ensures a % n == a + n
  {
    assert (a + n) % n == a + n;
  }

  /** `getLength`: how many slots lie between the read head and the write
      head, going forward. */
  function Length(b: Buffer): (n: nat)
    requires b.Valid()
    ensures n == (b.writeHead - b.readHead) % |b.slots|
    ensures n < |b.slots|
  {
    var n := |b.slots|;
    if b.readHead == b.writeHead then ModBelow(0, n); 0
    else if b.writeHead > b.readHead then ModBelow(b.writeHead - b.readHead, n); b.writeHead - b.readHead
    else ModShort(b.writeHead - b.readHead, n); b.writeHead + n - b.readHead
  }

  /** The queued items, oldest first: the Length(b) slots from the read head on. */
  function Queue(b: Buffer): (q: seq<byte>)
    requires b.Valid()
    ensures |q| == Length(b)
  {
    seq(Length(b), k requires 0 <= k < Length(b) => b.slots[Slot(b, k)])
  }

  /** The slot of the k-th queued item: k slots on from the read head. */
  function Slot(b: Buffer, k: nat): (p: nat)
    requires b.Valid() && k < |b.slots|
    ensures p < |b.slots| && p == (b.readHead + k) % |b.slots|
  {
    if b.readHead + k < |b.slots| then ModBelow(b.readHead + k, |b.slots|); b.readHead + k
    else ModWrap(b.readHead + k, |b.slots|); b.readHead + k - |b.slots|
  }

  /** A new buffer, and the buffer after `clear`: heads on slot 0, every slot 0. */
  function Empty(size: nat): (b: Buffer)
    requires 0 < size
    ensures b.Valid() && |b.slots| == size
  {
    Buffer(seq(size, _ => 0), 0, 0)
  }

  /** `write(x)`: x goes into the slot under the write head, which moves on. */
  function Push(b: Buffer, x: byte): (r: Buffer)
    requires b.Valid()
    ensures r.Valid()
  {
    Buffer(b.slots[b.writeHead := x], Next(b.writeHead, |b.slots|), b.readHead)
  }

  /** `read()`: the slot under the read head, which moves on. */
  function Pop(b: Buffer): (r: (Buffer, byte))
    requires b.Valid()
    ensures r.0.Valid()
  {
    (Buffer(b.slots, b.writeHead, Next(b.readHead, |b.slots|)), b.slots[b.readHead])
  }

  /** The writes of `write(xs, |xs|)`, one by one in index order. */
  function PushAll(b: Buffer, xs: seq<byte>): (r: Buffer)
    requires b.Valid()
    ensures r.Valid() && |r.slots| == |b.slots| && r.readHead == b.readHead
    decreases |xs|
  {
    if |xs| == 0 then b else PushAll(Push(b, xs[0]), xs[1..])
  }

  /** The reads of `read(out, n)`, one by one: the buffer after them and the
      items they return, in order. */
  function PopAll(b: Buffer, n: nat): (r: (Buffer, seq<byte>))
    requires b.Valid()
    ensures r.0.Valid() && |r.0.slots| == |b.slots| && r.0.writeHead == b.writeHead && |r.1| == n
    decreases n
  {
    if n == 0 then (b, [])
    else
      var (b1, x) := Pop(b);
      var (b2, xs) := PopAll(b1, n - 1);
      (b2, [x] + xs)
  }

  // ---------------------------------------------------------------------------
  // Properties of the value model

  /** `isEmpty` (the heads coincide) holds exactly when the length is 0. */
  lemma EmptyIffZeroLength(b: Buffer)
    requires b.Valid()
    ensures b.readHead == b.writeHead <==> Length(b) == 0
  {
  }

  /** A fresh or cleared buffer is empty. */
  lemma EmptyIsEmpty(size: nat)
    requires 0 < size
    ensures Length(Empty(size)) == 0 && Queue(Empty(size)) == []
  {
  }

  /** A write with room to spare appends x to the queue. */
  lemma PushQueue(b: Buffer, x: byte)
    requires b.Valid() && Length(b) < |b.slots| - 1
    ensures Length(Push(b, x)) == Length(b) + 1
    ensures Queue(Push(b, x)) == Queue(b) + [x]
  {
    var r := Push(b, x);
    assert Length(r) == Length(b) + 1;
    forall k | 0 <= k < Length(b)
      ensures Queue(r)[k] == Queue(b)[k]
    {
      assert Slot(b, k) != b.writeHead;
    }
    assert Slot(b, Length(b)) == b.writeHead;
  }

  /** The write into the last free slot collapses the buffer to empty: the
      write head lands on the read head and nothing is signalled. */
  lemma PushWhenFull(b: Buffer, x: byte)
    requires b.Valid() && Length(b) == |b.slots| - 1
    ensures Push(b, x).writeHead == b.readHead
    ensures Length(Push(b, x)) == 0 && Queue(Push(b, x)) == []
  {
  }

  /** A read of a non-empty buffer returns the oldest item and removes it. */
  lemma PopQueue(b: Buffer)
    requires b.Valid() && 0 < Length(b)
    ensures Pop(b).1 == Queue(b)[0]
    ensures Queue(Pop(b).0) == Queue(b)[1..]
  {
    var r := Pop(b).0;
    assert Length(r) == Length(b) - 1;
    forall k | 0 <= k < Length(r)
      ensures Queue(r)[k] == Queue(b)[k + 1]
    {
      assert Slot(r, k) == Slot(b, k + 1);
    }
  }

  /** A read of an empty buffer returns the slot under the read head and
      leaves the buffer reporting size - 1 items. */
  lemma PopWhenEmpty(b: Buffer)
    requires b.Valid() && Length(b) == 0
    ensures Pop(b).1 == b.slots[b.readHead]
    ensures Length(Pop(b).0) == |b.slots| - 1
  {
  }

  /** Writes that keep within the capacity append their items in order. */
  lemma {:induction false} PushAllQueue(b: Buffer, xs: seq<byte>)
    requires b.Valid() && Length(b) + |xs| < |b.slots|
    ensures Length(PushAll(b, xs)) == Length(b) + |xs|
    ensures Queue(PushAll(b, xs)) == Queue(b) + xs
    decreases |xs|
  {
    if |xs| > 0 {
      PushQueue(b, xs[0]);
      PushAllQueue(Push(b, xs[0]), xs[1..]);
      assert Queue(b) + [xs[0]] + xs[1..] == Queue(b) + xs;
    }
  }

  /** Reads of at most the queued items return the oldest ones, in order,
      and leave the rest queued. */
  lemma {:induction false} PopAllQueue(b: Buffer, n: nat)
    requires b.Valid() && n <= Length(b)
    ensures PopAll(b, n).1 == Queue(b)[..n]
    ensures Queue(PopAll(b, n).0) == Queue(b)[n..]
    decreases n
  {
    if n > 0 {
      PopQueue(b);
      var b1 := Pop(b).0;
      PopAllQueue(b1, n - 1);
      assert Queue(b1)[..n - 1] == Queue(b)[1..n];
      assert Queue(b1)[n - 1..] == Queue(b)[n..];
    }
  }

  /** FIFO: with Length(b) + |xs| < size, writing xs and then reading every
      queued item returns the items already queued, then xs, in order. */
  lemma Fifo(b: Buffer, xs: seq<byte>)
    requires b.Valid() && Length(b) + |xs| < |b.slots|
    ensures PopAll(PushAll(b, xs), Length(b) + |xs|).1 == Queue(b) + xs
  {
    PushAllQueue(b, xs);
    var w := PushAll(b, xs);
    PopAllQueue(w, Length(w));
    assert Queue(w)[..Length(w)] == Queue(w);
  }

  /** The slot k places on from slot h, for k up to one full turn. */
  function At(h: nat, k: nat, n: nat): (p: nat)
    requires h < n && k <= n
    ensures p < n
  {
    if h + k < n then h + k else h + k - n
  }

  /** Writes of at most a full turn put xs[k] k slots on from the write
      head, move the head |xs| slots on, and leave every other slot alone. */
  lemma {:induction false} PushAllWrites(b: Buffer, xs: seq<byte>)
    requires b.Valid() && |xs| <= |b.slots|
    ensures PushAll(b, xs).writeHead == At(b.writeHead, |xs|, |b.slots|)
    ensures forall k :: 0 <= k < |xs| ==> PushAll(b, xs).slots[At(b.writeHead, k, |b.slots|)] == xs[k]
    ensures forall p :: 0 <= p < |b.slots| && (forall k :: 0 <= k < |xs| ==> p != At(b.writeHead, k, |b.slots|)) ==>
      PushAll(b, xs).slots[p] == b.slots[p]
    decreases |xs|
  {
    var n, w := |b.slots|, b.writeHead;
    if |xs| > 0 {
      var b1 := Push(b, xs[0]);
      PushAllWrites(b1, xs[1..]);
      assert b1.writeHead == At(w, 1, n);
      forall k | 0 <= k < |xs| - 1
        ensures At(b1.writeHead, k, n) == At(w, k + 1, n) && At(w, k + 1, n) != w
      {
      }
      forall p | 0 <= p < n && (forall k :: 0 <= k < |xs| ==> p != At(w, k, n))
        ensures PushAll(b, xs).slots[p] == b.slots[p]
      {
        assert p != At(w, 0, n);
        forall k | 0 <= k < |xs| - 1
          ensures p != At(b1.writeHead, k, n)
        {
          assert p != At(w, k + 1, n);
        }
      }
    }
  }

  /** Reads of at most a full turn return the slots from the read head on. */
  lemma {:induction false} PopAllReads(b: Buffer, m: nat)
    requires b.Valid() && m <= |b.slots|
    ensures forall k :: 0 <= k < m ==> PopAll(b, m).1[k] == b.slots[At(b.readHead, k, |b.slots|)]
    decreases m
  {
    var n, r := |b.slots|, b.readHead;
    if m > 0 {
      var b1 := Pop(b).0;
      PopAllReads(b1, m - 1);
      forall k | 1 <= k < m
        ensures PopAll(b, m).1[k] == b.slots[At(r, k, n)]
      {
        assert At(b1.readHead, k - 1, n) == At(r, k, n);
      }
    }
  }

  /** A full turn of writes into an empty buffer leaves it reporting length
      0, not size: the write head has come round onto the read head. */
  lemma FullTurnLooksEmpty(b: Buffer, xs: seq<byte>)
    requires b.Valid() && Length(b) == 0 && |xs| == |b.slots|
    ensures Length(PushAll(b, xs)) == 0
  {
    PushAllWrites(b, xs);
  }

  /** Yet nothing written in that turn is lost: up to size writes into an
      empty buffer, then as many reads, return the items in order, even
      though the buffer reports itself empty after a full turn. */
  lemma WrapAroundReads(b: Buffer, xs: seq<byte>)
    requires b.Valid() && Length(b) == 0 && |xs| <= |b.slots|
    ensures PopAll(PushAll(b, xs), |xs|).1 == xs
  {
    PushAllWrites(b, xs);
    PopAllReads(PushAll(b, xs), |xs|);
  }

  // ---------------------------------------------------------------------------
  // The buffer object

  class RingBuffer {
    /** `mData`, of the template's Size slots. */
    const data: array<byte>
    /** `mWriteHead` and `mReadHead`, as indices into `mData`. */
    var writeHead: nat
    var readHead: nat

    ghost predicate Valid()
      reads this
    {
      0 < data.Length && writeHead < data.Length && readHead < data.Length
    }

    /** The buffer as a value. */
    ghost function State(): (b: Buffer)
      reads this, data
      requires Valid()
      ensures b.Valid() && |b.slots| == data.Length
    {
      Buffer(data[..], writeHead, readHead)
    }

    /** The constructor: both heads on slot 0 and every slot 0. */
    constructor (size: nat)
      requires 0 < size
      ensures Valid() && fresh(data) && data.Length == size
      ensures State() == Empty(size)
    {
      data := new byte[size](_ => 0);
      writeHead, readHead := 0, 0;
    }

    /** `getLength`. */
    function GetLength(): (n: nat)
      reads this, data
      requires Valid()
      ensures n == Length(State())
    {
      if readHead == writeHead then 0
      else if writeHead > readHead then writeHead - readHead
      else writeHead + data.Length - readHead
    }

    /** `isEmpty`. */
    function IsEmpty(): (e: bool)
      reads this, data
      requires Valid()
      ensures e <==> GetLength() == 0
    {
      readHead == writeHead
    }

    /** `write(x)`. */
    method Write(x: byte)
      requires Valid()
      modifies this, data
      ensures Valid() && State() == Push(old(State()), x)
    {
      data[writeHead] := x;
      writeHead := writeHead + 1;
      if writeHead >= data.Length {
        writeHead := 0;
      }
    }

    /** `write(inData, inSize)`: the first inSize items of inData, one
        `write` each; nothing for an inSize of 0 or less. */
    method WriteArray(inData: array<byte>, inSize: int)
      requires Valid() && inData != data && inSize <= inData.Length
      modifies this, data
      ensures Valid() && State() == PushAll(old(State()), inData[..Clamp(inSize)])
    {
      ghost var b0 := State();
      for i := 0 to Clamp(inSize)
        invariant Valid() && PushAll(State(), inData[i..Clamp(inSize)]) == PushAll(b0, inData[..Clamp(inSize)])
      {
        assert inData[i..Clamp(inSize)][1..] == inData[i + 1..Clamp(inSize)];
        Write(inData[i]);
      }
    }

    /** `clear`: every slot 0, both heads on slot 0. */
    method Clear()
      requires Valid()
      modifies this, data
      ensures Valid() && State() == Empty(data.Length)
    {
      var i := 0;
      while i < data.Length
        invariant 0 <= i <= data.Length
        invariant forall k :: 0 <= k < i ==> data[k] == 0
      {
        data[i] := 0;
        i := i + 1;
      }
      readHead, writeHead := 0, 0;
    }

    /** `read()`. */
    method Read() returns (x: byte)
      requires Valid()
      modifies this
      ensures Valid() && (State(), x) == Pop(old(State()))
    {
      x := data[readHead];
      readHead := readHead + 1;
      if readHead >= data.Length {
        readHead := 0;
      }
    }

    /** `read(outData, inSize)`: inSize `read`s into outData[0..inSize). */
    method ReadArray(outData: array<byte>, inSize: int)
      requires Valid() && outData != data && inSize <= outData.Length
      modifies this, outData
      ensures Valid() && (State(), outData[..Clamp(inSize)]) == PopAll(old(State()), Clamp(inSize))
      ensures outData[Clamp(inSize)..] == old(outData[Clamp(inSize)..])
    {
      ghost var b0 := State();
      for i := 0 to Clamp(inSize)
        invariant Valid() && data[..] == b0.slots
        invariant outData[Clamp(inSize)..] == old(outData[Clamp(inSize)..])
        invariant PopAll(b0, i) == (State(), outData[..i])
      {
        PopAllSnoc(b0, i);
        ghost var prev := outData[..i];
        var x := Read();
        outData[i] := x;
        assert outData[..i + 1] == prev + [x];
      }
    }
  }

  /** The loop count of a C++ `for (int i = 0; i < n; ++i)`: n, or 0 for a
      negative n. */
  function Clamp(n: int): (r: nat)
    ensures r == if n < 0 then 0 else n
  {
    if n < 0 then 0 else n
  }

  /** One more read after n reads. */
  lemma {:induction false} PopAllSnoc(b: Buffer, n: nat)
    requires b.Valid()
    ensures PopAll(b, n + 1) == (Pop(PopAll(b, n).0).0, PopAll(b, n).1 + [Pop(PopAll(b, n).0).1])
    decreases n
  {
    if n > 0 {
      var b1 := Pop(b).0;
      PopAllSnoc(b1, n - 1);
      var p := PopAll(b1, n - 1);
      assert PopAll(b, n) == (p.0, [Pop(b).1] + p.1);
      assert PopAll(b, n + 1) == (PopAll(b1, n).0, [Pop(b).1] + PopAll(b1, n).1);
      assert [Pop(b).1] + (p.1 + [Pop(p.0).1]) == ([Pop(b).1] + p.1) + [Pop(p.0).1];
    } else {
      assert PopAll(Pop(b).0, 0) == (Pop(b).0, []);
      assert [Pop(b).1] + [] == [] + [Pop(b).1];
    }
  }
}
