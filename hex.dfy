/**
 * Bytes and the instruction assembler `b`: opcode bytes followed by an
 * operand written little-endian in a fixed number of bytes.
 */
module Hex {
  type Byte = x: int | 0 <= x < 256

  /** 256 to the power `width`: the number of values `width` bytes can hold. */
  function Pow256(width: nat): (p: nat)
    ensures p >= 1
  {
    if width == 0 then 1 else 256 * Pow256(width - 1)
  }

  /** The number little-endian `bytes` stand for. */
  function Value(bytes: seq<Byte>): nat
  {
    if bytes == [] then 0 else bytes[0] + 256 * Value(bytes[1..])
  }

  /** `v` written little-endian in exactly `width` bytes. */
  function LittleEndian(v: nat, width: nat): (r: seq<Byte>)
    requires v < Pow256(width)
    ensures |r| == width && Value(r) == v
  {
    if width == 0 then []
    else
      var rest := LittleEndian(v / 256, width - 1);
      assert ([v % 256] + rest)[1..] == rest;
      [v % 256] + rest
  }

  /** `width` bytes hold a value below `Pow256(width)`. */
  lemma {:induction false} ValueBound(bytes: seq<Byte>)
    ensures Value(bytes) < Pow256(|bytes|)
  {
    if bytes != [] {
      ValueBound(bytes[1..]);
    }
  }

  /** Writing the value of some bytes gives those bytes back. */
  lemma {:induction false} LittleEndianOfValue(bytes: seq<Byte>)
    ensures Value(bytes) < Pow256(|bytes|)
    ensures LittleEndian(Value(bytes), |bytes|) == bytes
  {
    ValueBound(bytes);
    if bytes != [] {
      var v := Value(bytes);
      LittleEndianOfValue(bytes[1..]);
      assert v % 256 == bytes[0] && v / 256 == Value(bytes[1..]);
      assert bytes == [bytes[0]] + bytes[1..];
    }
  }

  /**
   * The assembler `b(opcode, operand)`: the opcode bytes, then the operand in
   * `width` little-endian bytes; the operand must fit.
   */
  function B(opcode: seq<Byte>, operand: nat, width: nat): (r: seq<Byte>)
    requires operand < Pow256(width)
    ensures |r| == |opcode| + width
    ensures r[..|opcode|] == opcode && Value(r[|opcode|..]) == operand
  {
    var r := opcode + LittleEndian(operand, width);
    assert r[|opcode|..] == LittleEndian(operand, width);
    r
  }

  /** A one-byte operand, as x86 reads an 8-bit displacement or immediate: two's complement. */
  function Signed(x: Byte): (r: int)
    ensures -128 <= r < 128 && (r - x) % 256 == 0
    ensures r == x <==> x < 128
  {
    if x < 128 then x else x - 256
  }

  /** A one-byte operand is the single byte `[operand]`. */
  lemma OneByteOperand(opcode: seq<Byte>, operand: nat)
    requires operand < 256
    ensures Pow256(1) == 256 && B(opcode, operand, 1) == opcode + [operand]
  {
    assert Pow256(1) == 256;
    assert LittleEndian(operand / 256, 0) == [];
  }
}
