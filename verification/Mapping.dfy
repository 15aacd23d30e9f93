/** `utf8proc_map_custom`: measure, allocate, decompose, normalize and re-encode. */
module Mapping {
  import opened Bytes
  import opened CellMemory
  import opened Decomposition
  import opened Reencoding
  import opened TextDecomposition
  import opened UnicodeTables
  import opened Utf8

  datatype Mapped = Ok(bytes: seq<Byte>) | Err(code: int)

  /** What a text is mapped to. */
  ghost function MapText(t: Tables, text: seq<Byte>, custom: int -> int, o: Options): Mapped
    requires t.WellFormed()
  {
    match DecomposeText(t, text, custom, o)
    case TextError(code) => Err(code)
    case Text(cells) => Ok(Reencoded(t, cells, o))
  }

  lemma MapErrors(t: Tables, text: seq<Byte>, custom: int -> int, o: Options)
    requires t.WellFormed()
    ensures var d := DecomposeText(t, text, custom, o);
      d.TextError? ==> d.code in {ERROR_INVALIDUTF8, ERROR_NOTASSIGNED, ERROR_OVERFLOW, ERROR_INVALIDOPTS}
  {
    CharMapErrors(t, custom, o);
    GatherErrors(CharMapOf(t, custom, o), Decode(text), 0, []);
  }

  /**
   The sizing pass and the filling pass agree, so the block allocated after the first holds exactly
   the cells of the second, and the zero-terminated result is built inside it.
   */
  method MapCustom(t: Tables, mem: seq<Byte>, strlen: int, o: Options, custom: int -> int)
    returns (result: int, dst: seq<Byte>)
    requires t.WellFormed() && Readable(mem, strlen, o.nullterm)
    ensures match MapText(t, TextOf(mem, strlen, o.nullterm), custom, o)
      case Err(code) => result == code < 0 && dst == []
      case Ok(bytes) => result == |bytes| && dst == bytes + [0]
  {
    MapErrors(t, TextOf(mem, strlen, o.nullterm), custom, o);
    var none := new CellBuffer(0);
    result := DecomposeCustom(t, mem, strlen, none, 0, o, custom);
    if result < 0 { return result, []; }
    var buffer := new CellBuffer(result);
    var filled := DecomposeCustom(t, mem, strlen, buffer, result, o, custom);
    assert filled == result;  // so the second failure test never succeeds
    result := Reencode(t, buffer, filled, o);
    dst := buffer.mem[..result + 1];
  }
}
