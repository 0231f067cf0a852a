/** The 14-bit parameter values and the table of parameter cells of the
    RPN/NRPN example (examples/RPN_NRPN/utility.h).

    `Value` is a two-byte struct kept by value inside the cells, so it is a
    datatype here and each of its assignment operators is a function from
    the value before to the value after (`v += d` is `v := AddTo(v, d)`).
    The source does not fix the width of `unsigned` and `int`; they are
    taken to be 32 bits wide, as on ARM boards, and their wrap-around is
    written out where the source relies on it. */
module Rpn {
  import opened Bytes

  type uint32 = x: int | 0 <= x < 0x1_0000_0000
  type int32 = x: int | -0x8000_0000 <= x < 0x8000_0000

  const Max14: nat := 0x3fff

  // ---------------------------------------------------------------------------
  // Value

  /** A seven-bit half. The source stores each half in a byte, but every
      assignment masks it with 0x7f and the table starts out reset, so bit 7
      is never set. */
  type uint7 = x: int | 0 <= x < 0x80

  /** `mMsb` and `mLsb`: the upper and lower seven bits of a 14-bit number. */
  datatype Value = Value(msb: uint7, lsb: uint7)

  /** `as14bits`. With bit 7 of both halves clear, `msb << 7 | lsb` is
      msb * 128 + lsb. */
  function As14Bits(v: Value): (r: nat)
    ensures r <= Max14
  {
    v.msb * 128 + v.lsb
  }

  /** The halves of as14bits: the quotient and remainder by 128. */
  lemma As14BitsHalves(v: Value)
    ensures As14Bits(v) / 128 == v.msb && As14Bits(v) % 128 == v.lsb
  {
  }

  /** `operator=(unsigned)`: `(x >> 7) & 0x7f` and `x & 0x7f`. */
  function Assign(x: uint32): Value
  {
    Value((x / 128) % 128, x % 128)
  }

  /** Assignment masks the number to its lower 14 bits; it does not clamp. */
  lemma AssignMasks(x: uint32)
    ensures As14Bits(Assign(x)) == x % 0x4000
  {
    var q, r := x / 128, x % 128;
    var k, m := q / 128, q % 128;
    assert x == 128 * q + r;
    assert q == 128 * k + m;
    RemainderOf(x, k, 128 * m + r);
  }

  lemma RemainderOf(x: int, k: int, m: int)
    requires x == 0x4000 * k + m && 0 <= m < 0x4000
    ensures x % 0x4000 == m
  {
  }

  /** Two values with the same 14-bit number are the same value. */
  lemma As14BitsInjective(v: Value, w: Value)
    requires As14Bits(v) == As14Bits(w)
    ensures v == w
  {
    As14BitsHalves(v);
    As14BitsHalves(w);
  }

  /** Assigning a 14-bit number and reading it back gives the number. */
  lemma AssignAs14Bits(v: Value)
    ensures Assign(As14Bits(v)) == v
  {
    AssignMasks(As14Bits(v));
    As14BitsInjective(Assign(As14Bits(v)), v);
  }

  /** `operator+=(int)`: the sum is taken in unsigned 32-bit arithmetic, so
      a negative sum wraps to 2^32 plus the sum; a sum above 0x3fff sets both
      halves to 0x7f. */
  function AddTo(v: Value, d: int32): Value
  {
    var sum := As14Bits(v) + d;
    var unsigned := if sum < 0 then sum + 0x1_0000_0000 else sum;
    if unsigned > Max14 then Value(0x7f, 0x7f) else Assign(unsigned)
  }

  /** `operator-=(int)`: the difference is taken in signed arithmetic; one
      of 0 or less clears both halves, any other is assigned. */
  function SubFrom(v: Value, d: int32): Value
  {
    var diff := As14Bits(v) - d;
    if diff <= 0 then Value(0, 0) else Assign(diff)
  }

  /** Adding a non-negative amount saturates at 0x3fff. */
  lemma AddSaturates(v: Value, d: int32)
    requires 0 <= d
    ensures As14Bits(AddTo(v, d)) == if As14Bits(v) + d > Max14 then Max14 else As14Bits(v) + d
  {
    var c := As14Bits(v);
    if c + d <= Max14 {
      AssignSmall(c + d);
    }
  }

  /** Adding a negative amount larger than the value wraps the unsigned sum
      past 0x3fff, so the value saturates at the top instead of reaching 0. */
  lemma AddNegativeWraps(v: Value, d: int32)
    requires d < 0 && As14Bits(v) + d < 0
    ensures As14Bits(AddTo(v, d)) == Max14
  {
  }

  /** Adding a negative amount no larger than the value subtracts it. */
  lemma AddNegativeSubtracts(v: Value, d: int32)
    requires d < 0 && 0 <= As14Bits(v) + d
    ensures As14Bits(AddTo(v, d)) == As14Bits(v) + d
  {
    AssignSmall(As14Bits(v) + d);
  }

  /** Subtracting a non-negative amount stops at 0. */
  lemma SubFloors(v: Value, d: int32)
    requires 0 <= d
    ensures As14Bits(SubFrom(v, d)) == if As14Bits(v) - d <= 0 then 0 else As14Bits(v) - d
  {
    var c := As14Bits(v);
    if c - d > 0 {
      AssignSmall(c - d);
    }
  }

  /** Subtracting a negative amount is not saturated: the difference goes
      through the 14-bit mask of `operator=`, so 0x3fff minus -1 is 0. For
      d at most As14Bits(v) - 2^31 the source's signed difference overflows
      and its result is undefined; there this describes the model only. */
  lemma SubNegativeMasks(v: Value, d: int32)
    requires d < 0
    ensures As14Bits(SubFrom(v, d)) == (As14Bits(v) - d) % 0x4000
  {
    var x: uint32 := As14Bits(v) - d;
    assert SubFrom(v, d) == Assign(x);
    AssignMasks(x);
  }

  /** A number that already fits in 14 bits is assigned unchanged. */
  lemma AssignSmall(x: uint32)
    requires x <= Max14
    ensures As14Bits(Assign(x)) == x
  {
    AssignMasks(x);
  }

  // ---------------------------------------------------------------------------
  // Cells

  /** `Cell`: whether the slot is in use, its parameter number and value. */
  datatype Cell = Cell(active: bool, number: uint32, value: Value)

  /** `Cell::reset`: inactive, number 0, value 0. */
  function ResetCell(): Cell
  {
    Cell(false, 0, Value(0, 0))
  }

  /** The cell `reset` leaves as the fallback of `get`: inactive, number
      0xffff, and the value 0xffff assigns. */
  function Sentinel(): Cell
  {
    Cell(false, 0xffff, Value(0x7f, 0x7f))
  }

  /** The values of the reset cells are the ones `operator=` makes of 0 and
      of 0xffff; the sentinel's value reads back as 0x3fff. */
  lemma ResetValues()
    ensures ResetCell().value == Assign(0) && As14Bits(ResetCell().value) == 0
    ensures Sentinel().value == Assign(0xffff) && As14Bits(Sentinel().value) == Max14
  {
  }

  /** The cells `has` and `get` accept for n: inactive ones holding n. */
  predicate Matches(c: Cell, n: uint32)
  {
    !c.active && c.number == n
  }

  /** Where `get(n)` leads: a cell of the table, or the sentinel. */
  datatype Ref = CellAt(index: nat) | Invalid

  /** The first cell of cs that matches n, scanning from index 0. */
  function Find(cs: seq<Cell>, n: uint32): (r: Ref)
    ensures r.CellAt? ==> r.index < |cs| && Matches(cs[r.index], n)
    ensures r.CellAt? ==> forall j :: 0 <= j < r.index ==> !Matches(cs[j], n)
    ensures r.Invalid? ==> forall j :: 0 <= j < |cs| ==> !Matches(cs[j], n)
    decreases |cs|
  {
    if |cs| == 0 then Invalid
    else if Matches(cs[0], n) then CellAt(0)
    else
      match Find(cs[1..], n)
      case CellAt(i) => CellAt(i + 1)
      case Invalid => Invalid
  }

  /** The index of the first inactive cell, if any. */
  function FirstInactive(cs: seq<Cell>): (r: Ref)
    ensures r.CellAt? ==> r.index < |cs| && !cs[r.index].active
    ensures r.CellAt? ==> forall j :: 0 <= j < r.index ==> cs[j].active
    ensures r.Invalid? ==> forall j :: 0 <= j < |cs| ==> cs[j].active
    decreases |cs|
  {
    if |cs| == 0 then Invalid
    else if !cs[0].active then CellAt(0)
    else
      match FirstInactive(cs[1..])
      case CellAt(i) => CellAt(i + 1)
      case Invalid => Invalid
  }

  /** `enable(n)` on the table cs: the new table and the result. */
  function EnableCells(cs: seq<Cell>, n: uint32): (r: (seq<Cell>, bool))
  {
    match FirstInactive(cs)
    case CellAt(i) => (cs[i := Cell(true, n, Assign(0))], true)
    case Invalid => (cs, false)
  }

  /** enable succeeds exactly when some cell is inactive, opens the lowest
      such cell for n with value 0 and touches no other cell; on failure the
      table is unchanged. */
  lemma EnableOpensLowest(cs: seq<Cell>, n: uint32)
    ensures EnableCells(cs, n).1 <==> exists j :: 0 <= j < |cs| && !cs[j].active
    ensures |EnableCells(cs, n).0| == |cs|
    ensures !EnableCells(cs, n).1 ==> EnableCells(cs, n).0 == cs
    ensures EnableCells(cs, n).1 ==>
      exists i :: (0 <= i < |cs| && !cs[i].active &&
        (forall j :: 0 <= j < i ==> cs[j].active) &&
        EnableCells(cs, n).0 == cs[i := Cell(true, n, Assign(0))])
  {
    match FirstInactive(cs)
    case CellAt(i) =>
    case Invalid =>
  }

  /** A cell opened by enable is active, so no lookup, for any number,
      finds it. */
  lemma EnabledCellNeverFound(cs: seq<Cell>, n: uint32, m: uint32)
    requires FirstInactive(cs).CellAt?
    ensures Find(EnableCells(cs, n).0, m) != CellAt(FirstInactive(cs).index)
  {
  }

  /** After reset (with at least one cell) number 0 is found: in cell 0. */
  lemma ResetFindsZero(size: nat)
    requires 0 < size
    ensures Find(seq(size, _ => ResetCell()), 0) == CellAt(0)
  {
  }

  /** Enabling n does not make n findable: enable and has disagree. */
  lemma {:induction false} EnableThenHasNot(cs: seq<Cell>, n: uint32)
    requires forall j :: 0 <= j < |cs| ==> !Matches(cs[j], n)
    ensures forall j :: 0 <= j < |cs| ==> !Matches(EnableCells(cs, n).0[j], n)
  {
    EnableOpensLowest(cs, n);
  }

  // ---------------------------------------------------------------------------
  // The table

  /** `State<Size>`: the cells and the sentinel cell. */
  class State {
    const cells: array<Cell>
    var invalid: Cell

    /** The table holds garbage until `reset`; the model starts from a reset
        table. */
    constructor (size: nat)
      ensures fresh(cells) && cells.Length == size
      ensures forall i :: 0 <= i < size ==> cells[i] == ResetCell()
      ensures invalid == Sentinel()
    {
      cells := new Cell[size](_ => ResetCell());
      invalid := Sentinel();
    }

    /** `reset`: every cell back to inactive, number 0, value 0; the sentinel
        to number 0xffff and value 0x3fff. */
    method Reset()
      modifies this, cells
      ensures forall i :: 0 <= i < cells.Length ==> cells[i] == ResetCell()
      ensures invalid == Sentinel()
    {
      for i := 0 to cells.Length
        invariant forall k :: 0 <= k < i ==> cells[k] == ResetCell()
      {
        cells[i] := ResetCell();
      }
      invalid := Sentinel();
    }

    /** `enable(n)`. */
    method Enable(n: uint32) returns (ok: bool)
      modifies cells
      ensures (cells[..], ok) == EnableCells(old(cells[..]), n)
    {
      for i := 0 to cells.Length
        invariant cells[..] == old(cells[..])
        invariant forall k :: 0 <= k < i ==> cells[k].active
      {
        if !cells[i].active {
          ghost var cs := cells[..];
          assert FirstInactive(cs) == CellAt(i) by {
            FirstInactiveIs(cs, i);
          }
          cells[i] := Cell(true, n, Assign(0));
          return true;
        }
      }
      assert FirstInactive(cells[..]) == Invalid;
      return false;
    }

    /** `has(n)`. */
    method Has(n: uint32) returns (b: bool)
      ensures b <==> exists i :: 0 <= i < cells.Length && Matches(cells[i], n)
    {
      for i := 0 to cells.Length
        invariant forall k :: 0 <= k < i ==> !Matches(cells[k], n)
      {
        if !cells[i].active && cells[i].number == n {
          return true;
        }
      }
      return false;
    }

    /** `get(n)`, both overloads: where the returned reference points. */
    method Get(n: uint32) returns (r: Ref)
      ensures r == Find(cells[..], n)
    {
      for i := 0 to cells.Length
        invariant forall k :: 0 <= k < i ==> !Matches(cells[k], n)
      {
        if !cells[i].active && cells[i].number == n {
          FindIs(cells[..], n, i);
          return CellAt(i);
        }
      }
      FindNone(cells[..], n);
      return Invalid;
    }
  }

  /** Find is determined by its contract: the first match is the answer. */
  lemma {:induction false} FindIs(cs: seq<Cell>, n: uint32, i: nat)
    requires i < |cs| && Matches(cs[i], n)
    requires forall k :: 0 <= k < i ==> !Matches(cs[k], n)
    ensures Find(cs, n) == CellAt(i)
  {
    match Find(cs, n)
    case CellAt(j) =>
      if j < i {
      } else if j > i {
      }
    case Invalid =>
  }

  lemma FindNone(cs: seq<Cell>, n: uint32)
    requires forall k :: 0 <= k < |cs| ==> !Matches(cs[k], n)
    ensures Find(cs, n) == Invalid
  {
  }

  lemma FirstInactiveIs(cs: seq<Cell>, i: nat)
    requires i < |cs| && !cs[i].active
    requires forall k :: 0 <= k < i ==> cs[k].active
    ensures FirstInactive(cs) == CellAt(i)
  {
    match FirstInactive(cs)
    case CellAt(j) =>
      if j < i {
      } else if j > i {
      }
    case Invalid =>
  }
}
