/** `utf8proc_reencode`: the cells of a buffer become UTF-8 in the very bytes that hold the cells. */
module Reencoding {
  import opened Bytes
  import opened CellMemory
  import opened Normalization
  import opened Sequences
  import opened UnicodeTables
  import opened Utf8

  /** The encoder that the options select. */
  function Encoder(o: Options): int -> seq<Byte> {
    if o.charbound then CharboundEncodeChar else EncodeChar
  }

  lemma EncoderWidth(o: Options, uc: int)
    ensures |Encoder(o)(uc)| <= 4
  {
  }

  /** `utf8proc_encode_char` into memory. */
  method EncodeCharInto(mem: array<Byte>, wpos: nat, uc: int) returns (n: nat)
    requires wpos + |EncodeChar(uc)| <= mem.Length
    modifies mem
    ensures n == |EncodeChar(uc)| && mem[..wpos + n] == old(mem[..wpos]) + EncodeChar(uc)
    ensures mem[wpos + n..] == old(mem[wpos + n..])
  {
    if uc < 0 {
      return 0;
    } else if uc < 0x80 {
      mem[wpos] := uc;
      return 1;
    } else if uc < 0x800 {
      mem[wpos] := 0xC0 + uc / 0x40;
      mem[wpos + 1] := 0x80 + uc % 0x40;
      return 2;
    } else if uc < 0x1_0000 {
      mem[wpos] := 0xE0 + uc / 0x1000;
      mem[wpos + 1] := 0x80 + uc / 0x40 % 0x40;
      mem[wpos + 2] := 0x80 + uc % 0x40;
      return 3;
    } else if uc < 0x11_0000 {
      mem[wpos] := 0xF0 + uc / 0x4_0000;
      mem[wpos + 1] := 0x80 + uc / 0x1000 % 0x40;
      mem[wpos + 2] := 0x80 + uc / 0x40 % 0x40;
      mem[wpos + 3] := 0x80 + uc % 0x40;
      return 4;
    } else {
      return 0;
    }
  }

  /** `charbound_encode_char` into memory. */
  method CharboundEncodeCharInto(mem: array<Byte>, wpos: nat, uc: int) returns (n: nat)
    requires wpos + |CharboundEncodeChar(uc)| <= mem.Length
    modifies mem
    ensures n == |CharboundEncodeChar(uc)| && mem[..wpos + n] == old(mem[..wpos]) + CharboundEncodeChar(uc)
    ensures mem[wpos + n..] == old(mem[wpos + n..])
  {
    if uc == -1 {
      mem[wpos] := 0xFF;
      return 1;
    }
    n := EncodeCharInto(mem, wpos, uc);
  }

  /** The encoder that the options select, into memory. */
  method EncodeCell(mem: array<Byte>, wpos: nat, uc: int, o: Options) returns (n: nat)
    requires wpos + |Encoder(o)(uc)| <= mem.Length
    modifies mem
    ensures n == |Encoder(o)(uc)| && mem[..wpos + n] == old(mem[..wpos]) + Encoder(o)(uc)
    ensures mem[wpos + n..] == old(mem[wpos + n..])
  {
    if o.charbound {
      n := CharboundEncodeCharInto(mem, wpos, uc);
    } else {
      n := EncodeCharInto(mem, wpos, uc);
    }
  }

  /** The first `rpos` of `cells` are encoded into `wpos` bytes, and no byte of a later cell has changed. */
  ghost predicate Encoding(mem: seq<Byte>, start: seq<Byte>, cells: seq<int>, f: int -> seq<Byte>, rpos: nat, wpos: nat) {
    && rpos <= |cells| && wpos <= 4 * rpos && 4 * |cells| < |mem| == |start|
    && mem[..wpos] == FlatMap(f, cells[..rpos]) && mem[4 * rpos..] == start[4 * rpos..]
  }

  lemma EncodingStep(before: seq<Byte>, after: seq<Byte>, start: seq<Byte>, cells: seq<int>, f: int -> seq<Byte>, rpos: nat, wpos: nat)
    requires rpos < |cells| && Encoding(before, start, cells, f, rpos, wpos) && |after| == |before|
    requires var n := |f(cells[rpos])|;
      n <= 4 && after[..wpos + n] == before[..wpos] + f(cells[rpos]) && after[wpos + n..] == before[wpos + n..]
    ensures Encoding(after, start, cells, f, rpos + 1, wpos + |f(cells[rpos])|)
  {
    var w, q := wpos + |f(cells[rpos])|, 4 * (rpos + 1);
    FlatMapSnoc(f, cells[..rpos], cells[rpos]);
    assert cells[..rpos + 1] == cells[..rpos] + [cells[rpos]];
    assert after[q..] == after[w..][q - w..] == before[w..][q - w..] == before[q..];
    assert before[q..] == before[4 * rpos..][4..] == start[q..];
  }

  lemma SameByte(mem: seq<Byte>, start: seq<Byte>, from: nat, k: nat)
    requires from <= k < |mem| == |start| && mem[from..] == start[from..]
    ensures mem[k] == start[k]
  {
    assert mem[k] == mem[from..][k - from] && start[k] == start[from..][k - from];
  }

  /** Reading a cell whose bytes have not changed gives the cell. */
  lemma CellUnchanged(mem: seq<Byte>, start: seq<Byte>, n: nat, i: nat)
    requires i < n && 4 * n <= |mem| == |start| && mem[4 * i..] == start[4 * i..]
    ensures CellsOf(mem, n)[i] == CellsOf(start, n)[i]
  {
    CellsOfAt(mem, n, i);
    CellsOfAt(start, n, i);
    SameByte(mem, start, 4 * i, 4 * i);
    SameByte(mem, start, 4 * i, 4 * i + 1);
    SameByte(mem, start, 4 * i, 4 * i + 2);
    SameByte(mem, start, 4 * i, 4 * i + 3);
  }

  /** The encoding loops: out of place or in place, the same bytes. */
  method EncodeInPlace(buffer: CellBuffer, length: nat, o: Options) returns (wpos: nat)
    requires buffer.Valid() && length <= buffer.size
    modifies buffer.mem
    ensures wpos <= 4 * length && buffer.mem[..wpos] == FlatMap(Encoder(o), old(buffer.Cells()[..length]))
  {
    ghost var start, all, cells: seq<int>, f := buffer.mem[..], buffer.Cells(), buffer.Cells()[..length], Encoder(o);
    wpos := 0;
    for rpos := 0 to length
      invariant Encoding(buffer.mem[..], start, cells, f, rpos, wpos)
    {
      ghost var before := buffer.mem[..];
      var uc := buffer.Get(rpos);
      CellUnchanged(before, start, buffer.size, rpos);
      assert uc == cells[rpos];
      EncoderWidth(o, uc);
      var n := EncodeCell(buffer.mem, wpos, uc, o);
      EncodingStep(before, buffer.mem[..], start, cells, f, rpos, wpos);
      wpos := wpos + n;
    }
    assert cells[..length] == cells;
  }

  /** The bytes `utf8proc_reencode` leaves, before the terminator. */
  ghost function Reencoded(t: Tables, cells: seq<int>, o: Options): seq<Byte> {
    FlatMap(Encoder(o), Normalized(t, cells, o))
  }

  method Reencode(t: Tables, buffer: CellBuffer, length: nat, o: Options) returns (wpos: nat)
    requires t.WellFormed() && buffer.Valid() && length <= buffer.size
    modifies buffer.mem
    ensures wpos < buffer.mem.Length && buffer.mem[wpos] == 0
    ensures buffer.mem[..wpos] == Reencoded(t, old(buffer.Cells()[..length]), o)
  {
    var n := NormalizeUtf32(t, buffer, length, o);
    wpos := EncodeInPlace(buffer, n, o);
    buffer.mem[wpos] := 0;
  }
}
