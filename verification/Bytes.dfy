// Little-endian operands inside a byte buffer, as get_u16, get_u32, put_u16 and
// put_u32 read and write them (cutils.h) on the little-endian targets of the library.
module Bytes {

  type Byte = b: int | 0 <= b < 0x100

  const U16_LIMIT := 0x1_0000
  const U32_LIMIT := 0x1_0000_0000
  const INT32_MAX := 0x7fff_ffff

  type U16 = v: int | 0 <= v < U16_LIMIT
  type U32 = v: int | 0 <= v < U32_LIMIT

  // Stores truncate to the field, as C does; a negative value is stored in two's complement.
  function PutU16(v: int): (b: seq<Byte>)
    ensures |b| == 2
  {
    [v % 0x100, v / 0x100 % 0x100]
  }

  function PutU32(v: int): (b: seq<Byte>)
    ensures |b| == 4
  {
    [v % 0x100, v / 0x100 % 0x100, v / 0x1_0000 % 0x100, v / 0x100_0000 % 0x100]
  }

  function GetU16(b: seq<Byte>, pos: nat): (v: U16)
    requires pos + 2 <= |b|
  {
    (b[pos] as int) + 0x100 * (b[pos + 1] as int)
  }

  function GetU32(b: seq<Byte>, pos: nat): (v: U32)
    requires pos + 4 <= |b|
  {
    (b[pos] as int) + 0x100 * (b[pos + 1] as int) + 0x1_0000 * (b[pos + 2] as int) + 0x100_0000 * (b[pos + 3] as int)
  }

  // The C conversion from uint32_t to int that jump offsets go through.
  function ToSigned(v: U32): (i: int)
  {
    if v <= INT32_MAX then v else v - U32_LIMIT
  }

  // "block" stands in "code" at byte position "pos".
  predicate At(code: seq<Byte>, pos: int, block: seq<Byte>)
  {
    0 <= pos && pos + |block| <= |code| && code[pos..pos + |block|] == block
  }

  lemma {:induction false} AtConcat(code: seq<Byte>, pos: int, a: seq<Byte>, b: seq<Byte>)
    ensures At(code, pos, a + b) <==> At(code, pos, a) && At(code, pos + |a|, b)
  {
    if At(code, pos, a + b) {
      var c := code[pos..pos + |a + b|];
      assert code[pos..pos + |a|] == c[..|a|] == a;
      assert code[pos + |a|..pos + |a| + |b|] == c[|a|..] == b;
    }
    if At(code, pos, a) && At(code, pos + |a|, b) {
      assert code[pos..pos + |a + b|] == code[pos..pos + |a|] + code[pos + |a|..pos + |a| + |b|];
    }
  }

  lemma {:induction false} GetPutU16(code: seq<Byte>, pos: nat, v: int)
    requires At(code, pos, PutU16(v)) && 0 <= v < U16_LIMIT
    ensures GetU16(code, pos) == v
  {
    var c := code[pos..pos + 2];
    assert c[0] == code[pos] && c[1] == code[pos + 1];
  }

  lemma {:induction false} PutU32Digits(v: int)
    ensures var b := PutU32(v);
            (b[0] as int) + 0x100 * (b[1] as int) + 0x1_0000 * (b[2] as int) + 0x100_0000 * (b[3] as int) == v % U32_LIMIT
  {
    assert v / 0x100 / 0x100 == v / 0x1_0000;
    assert v / 0x1_0000 / 0x100 == v / 0x100_0000;
  }

  // A stored value is read back modulo 2^32; as a signed value it is read back exactly.
  lemma {:induction false} GetPutU32(code: seq<Byte>, pos: nat, v: int)
    requires At(code, pos, PutU32(v))
    ensures 0 <= v < U32_LIMIT ==> GetU32(code, pos) == v
    ensures -INT32_MAX <= v <= INT32_MAX ==> ToSigned(GetU32(code, pos)) == v
  {
    PutU32Digits(v);
    var c := code[pos..pos + 4];
    assert c[0] == code[pos] && c[1] == code[pos + 1] && c[2] == code[pos + 2] && c[3] == code[pos + 3];
  }
}
