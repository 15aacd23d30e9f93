/**
 The block of memory `utf8proc_map_custom` allocates: 4n + 1 bytes, seen either as n 32-bit cells
 or as bytes.  Cells are little-endian two's complement.
 */
module CellMemory {
  import opened Bytes

  type Cell = x: int | -0x8000_0000 <= x < 0x8000_0000

  function Signed(u: int): (c: Cell)
    requires 0 <= u < 0x1_0000_0000
    ensures c == u || c == u - 0x1_0000_0000
  {
    if u < 0x8000_0000 then u else u - 0x1_0000_0000
  }

  function WordOf(b0: Byte, b1: Byte, b2: Byte, b3: Byte): Cell {
    Signed(b0 + 0x100 * b1 + 0x1_0000 * b2 + 0x100_0000 * b3)
  }

  function CellAt(mem: seq<Byte>, i: nat): Cell
    requires 4 * i + 4 <= |mem|
  {
    WordOf(mem[4 * i], mem[4 * i + 1], mem[4 * i + 2], mem[4 * i + 3])
  }

  ghost function CellsOf(mem: seq<Byte>, n: nat): (cells: seq<Cell>)
    requires 4 * n <= |mem|
    ensures |cells| == n
  {
    if n == 0 then [] else CellsOf(mem, n - 1) + [CellAt(mem, n - 1)]
  }

  lemma {:induction false} CellsOfAt(mem: seq<Byte>, n: nat, i: nat)
    requires i < n && 4 * n <= |mem|
    ensures CellsOf(mem, n)[i] == CellAt(mem, i)
  {
    if i < n - 1 {
      CellsOfAt(mem, n - 1, i);
    }
  }

  function Unsigned(v: Cell): (u: int)
    ensures 0 <= u < 0x1_0000_0000
  {
    if v < 0 then v + 0x1_0000_0000 else v
  }

  class CellBuffer {
    const mem: array<Byte>
    const size: nat

    ghost predicate Valid() {
      mem.Length == 4 * size + 1
    }

    ghost function Cells(): (cells: seq<Cell>)
      requires Valid()
      reads mem
      ensures |cells| == size
    {
      CellsOf(mem[..], size)
    }

    constructor (n: nat)
      ensures Valid() && size == n && fresh(mem)
    {
      size := n;
      mem := new Byte[4 * n + 1];
    }

    method Get(i: nat) returns (v: Cell)
      requires Valid() && i < size
      ensures v == Cells()[i]
    {
      CellsOfAt(mem[..], size, i);
      v := WordOf(mem[4 * i], mem[4 * i + 1], mem[4 * i + 2], mem[4 * i + 3]);
    }

    method Set(i: nat, v: Cell)
      requires Valid() && i < size
      modifies mem
      ensures Cells() == old(Cells())[i := v]
    {
      var u := Unsigned(v);
      SplitWord(u);
      mem[4 * i] := u % 0x100;
      mem[4 * i + 1] := u / 0x100 % 0x100;
      mem[4 * i + 2] := u / 0x1_0000 % 0x100;
      mem[4 * i + 3] := u / 0x100_0000;
      assert CellAt(mem[..], i) == v;
      forall k | 0 <= k < size
        ensures CellsOf(mem[..], size)[k] == CellsOf(old(mem[..]), size)[i := v][k]
      {
        CellsOfAt(mem[..], size, k);
        CellsOfAt(old(mem[..]), size, k);
        assert k != i ==> CellAt(mem[..], k) == CellAt(old(mem[..]), k);
      }
    }
  }
}
