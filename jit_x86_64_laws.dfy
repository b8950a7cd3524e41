/**
 * What the machine-code backend's bytes mean: the program layout, the
 * register save order, the arithmetic each instruction performs, the shape
 * of the output and input sequences, and the end-of-input clamp.
 */
module JitX86_64Laws {
  import opened Wrappers
  import opened SeqUtil
  import opened Hex
  import opened Ast
  import opened Effects
  import opened JitX86_64

  // ---------------------------------------------------------------- layout

  /** The bytes of one node. */
  function NodeBytes(node: Node): (r: seq<Byte>)
    requires EncodableNode(node)
    ensures |r| == NodeSize(node)
  {
    Flatten(NodeChunks(node))
  }

  /** The encoding of a sequence is its first node's bytes followed by the rest's. */
  lemma EncodeCons(nodes: seq<Node>)
    requires nodes != [] && Encodable(nodes)
    ensures Encodable(nodes[1..])
    ensures Encode(nodes) == NodeBytes(nodes[0]) + Encode(nodes[1..])
  {
    FlattenConcat(NodeChunks(nodes[0]), BodyChunks(nodes[1..]));
  }

  lemma EncodableConcat(a: seq<Node>, b: seq<Node>)
    requires Encodable(a) && Encodable(b)
    ensures Encodable(a + b)
  {
    forall i | 0 <= i < |a + b|
      ensures EncodableNode((a + b)[i])
    {
      if i < |a| {
        assert (a + b)[i] == a[i];
      } else {
        assert (a + b)[i] == b[i - |a|];
      }
    }
  }

  /** The body of a sequence is the in-order concatenation of the per-node encodings. */
  lemma {:induction false} EncodeConcat(a: seq<Node>, b: seq<Node>)
    requires Encodable(a) && Encodable(b)
    ensures Encodable(a + b) && Encode(a + b) == Encode(a) + Encode(b)
    decreases |a|
  {
    EncodableConcat(a, b);
    if a == [] {
      assert a + b == b;
    } else {
      var ab := a + b;
      assert ab[0] == a[0] && ab[1..] == a[1..] + b;
      EncodeConcat(a[1..], b);
      EncodeCons(a);
      EncodeCons(ab);
      calc {
        Encode(ab);
        NodeBytes(a[0]) + Encode(a[1..] + b);
        NodeBytes(a[0]) + (Encode(a[1..]) + Encode(b));
        (NodeBytes(a[0]) + Encode(a[1..])) + Encode(b);
        Encode(a) + Encode(b);
      }
    }
  }

  /** The prologue's bytes: push r12, push r13, then the two 10-byte `movabs` loads. */
  function PrologueBytes(writeChar: nat, readChar: nat): seq<Byte>
    requires writeChar < Pow256(8) && readChar < Pow256(8)
  {
    Flatten(Prologue(writeChar, readChar))
  }

  lemma PrologueLayout(writeChar: nat, readChar: nat)
    requires writeChar < Pow256(8) && readChar < Pow256(8)
    ensures var p := PrologueBytes(writeChar, readChar);
      && |p| == 24
      && p[..4] == PushReg(12) + PushReg(13)
      && p[4..6] == [0x49, 0xBC] && Value(p[6..14]) == writeChar
      && p[14..16] == [0x49, 0xBD] && Value(p[16..24]) == readChar
  {
    var w := B([0x49, 0xBC], writeChar, 8);
    var r := B([0x49, 0xBD], readChar, 8);
    FlattenFour([0x41, 0x54], [0x41, 0x55], w, r);
    var p := PrologueBytes(writeChar, readChar);
    assert |w| == 10 && |r| == 10;
    assert p == [0x41, 0x54] + [0x41, 0x55] + w + r;
    assert p[14..] == r;
    assert p[6..14] == w[2..];
    assert p[16..24] == r[2..];
  }

  /**
   * The program is the prologue, the body and the epilogue; the epilogue pops
   * r13 and r12, the reverse of the prologue's pushes, and returns.
   */
  lemma GenerateLayout(ast: seq<Node>, writeChar: nat, readChar: nat)
    requires Encodable(ast) && writeChar < Pow256(8) && readChar < Pow256(8)
    ensures GenerateX86_64(ast, writeChar, readChar) ==
      PrologueBytes(writeChar, readChar) + Encode(ast) + (PopReg(13) + PopReg(12) + Return)
  {
    var pro := Prologue(writeChar, readChar);
    var epi := Epilogue();
    FlattenConcat(pro + BodyChunks(ast), epi);
    FlattenConcat(pro, BodyChunks(ast));
    FlattenThree([0x41, 0x5D], [0x41, 0x5C], Return);
  }

  // ------------------------------------------------ meaning of arithmetic

  /**
   * The arithmetic instructions the backend emits, read as x86-64 does: an
   * 8-bit immediate added to `rdi` is sign-extended, one added to the cell
   * byte is taken as is (the cell wraps modulo 256).
   */
  function DecodeArithmetic(code: seq<Byte>): Option<Effect>
  {
    if code == [0xFE, 0x07] then Some(CellAdd(1))
    else if code == [0xFE, 0x0F] then Some(CellAdd(-1))
    else if code == [0x48, 0xFF, 0xC7] then Some(PointerAdd(1))
    else if code == [0x48, 0xFF, 0xCF] then Some(PointerAdd(-1))
    else if |code| == 3 && code[..2] == [0x80, 0x07] then Some(CellAdd(code[2]))
    else if |code| == 3 && code[..2] == [0x80, 0x2F] then Some(CellAdd(-(code[2] as int)))
    else if |code| == 4 && code[..3] == [0x48, 0x83, 0xC7] then Some(PointerAdd(Signed(code[3])))
    else if |code| == 4 && code[..3] == [0x48, 0x83, 0xEF] then Some(PointerAdd(-Signed(code[3])))
    else None
  }

  /** The effect a node asks for. */
  function Intended(node: Node): Option<Effect>
  {
    match node
    case Add(n) => Some(CellAdd(n))
    case Subtract(n) => Some(CellAdd(-n))
    case Forward(n) => Some(PointerAdd(n))
    case Back(n) => Some(PointerAdd(-n))
    case _ => None
  }

  /** Cell arithmetic is encoded faithfully for every operand the assembler accepts. */
  lemma CellArithmeticMeaning(node: Node)
    requires (node.Add? || node.Subtract?) && EncodableNode(node)
    ensures DecodeArithmetic(NodeBytes(node)) == Intended(node)
  {
    var opcode: seq<Byte> := if node.Add? then [0x80, 0x07] else [0x80, 0x2F];
    var unit: seq<Byte> := if node.Add? then [0xFE, 0x07] else [0xFE, 0x0F];
    OneByteOperand(opcode, node.n);
    if node.n == 1 {
      assert NodeChunks(node) == [unit];
      FlattenOne(unit);
    } else {
      assert NodeChunks(node) == [opcode + [node.n]];
      FlattenOne(opcode + [node.n]);
      var code := NodeBytes(node);
      assert code == opcode + [node.n];
      assert |code| == 3 && code[..2] == opcode && code[2] == node.n;
      assert code[0] == 0x80;
      assert code != [0xFE, 0x07] && code != [0xFE, 0x0F] && code != [0x48, 0xFF, 0xC7] && code != [0x48, 0xFF, 0xCF];
    }
  }

  /**
   * Pointer arithmetic is encoded faithfully exactly when the operand is at
   * most 127: the immediate is sign-extended, so 128 to 255 move the other way.
   */
  lemma PointerArithmeticMeaning(node: Node)
    requires (node.Forward? || node.Back?) && EncodableNode(node)
    ensures DecodeArithmetic(NodeBytes(node)) == Intended(node) <==> node.n < 128
  {
    var opcode: seq<Byte> := if node.Forward? then [0x48, 0x83, 0xC7] else [0x48, 0x83, 0xEF];
    var unit: seq<Byte> := if node.Forward? then [0x48, 0xFF, 0xC7] else [0x48, 0xFF, 0xCF];
    OneByteOperand(opcode, node.n);
    if node.n == 1 {
      assert NodeChunks(node) == [unit];
      FlattenOne(unit);
    } else {
      assert NodeChunks(node) == [opcode + [node.n]];
      FlattenOne(opcode + [node.n]);
      var code := NodeBytes(node);
      assert code == opcode + [node.n];
      assert |code| == 4 && code[..3] == opcode && code[3] == node.n;
      assert code != unit;
    }
  }

  // ---------------------------------------------------- output and input

  /**
   * `Output(n)` with `n >= 1`: push, load, then `n` calls of the write callback
   * alternating with `n - 1` moves of its result into the argument, then pop.
   */
  lemma OutputShape(n: int)
    requires n >= 1
    ensures var c := OutputChunks(n);
      && |c| == 2 * n + 2
      && c[0] == PushRdi && c[1] == LoadCell && c[2 * n + 1] == PopRdi
      && (forall j :: 2 <= j <= 2 * n ==> c[j] == if j % 2 == 0 then CallWrite else MoveResult)
      && Count(c, CallWrite) == n && Count(c, MoveResult) == n - 1
  {
    var calls := DropLast(Alternate(CallWrite, MoveResult, n));
    var c := OutputChunks(n);
    assert c == [PushRdi, LoadCell] + calls + [PopRdi];
    forall j | 2 <= j <= 2 * n
      ensures c[j] == if j % 2 == 0 then CallWrite else MoveResult
    {
      assert c[j] == calls[j - 2];
      assert (j - 2) % 2 == j % 2;
    }
    CountAlternation(CallWrite, MoveResult, n);
    CountConcat([PushRdi, LoadCell] + calls, [PopRdi], CallWrite);
    CountConcat([PushRdi, LoadCell], calls, CallWrite);
    CountConcat([PushRdi, LoadCell] + calls, [PopRdi], MoveResult);
    CountConcat([PushRdi, LoadCell], calls, MoveResult);
    CountSmall(PushRdi, LoadCell, PopRdi, CallWrite);
    CountSmall(PushRdi, LoadCell, PopRdi, MoveResult);
  }

  /** `Output(n)` with `n <= 0` loads the cell and writes nothing. */
  lemma OutputNothing(n: int)
    requires n <= 0
    ensures OutputChunks(n) == [PushRdi, LoadCell, PopRdi]
  {
  }

  /**
   * `Input(n)`: push, exactly `n` calls of the read callback (none when
   * `n <= 0`), pop, then the four instructions that store the clamped result.
   */
  lemma InputShape(n: int)
    ensures var k := if n < 0 then 0 else n;
      var c := InputChunks(n);
      && |c| == k + 6
      && c[0] == PushRdi
      && (forall j :: 1 <= j <= k ==> c[j] == CallRead)
      && c[k + 1..] == [PopRdi, ClearEdx, TestEax, MoveIfNegative, StoreCell]
      && Count(c, CallRead) == k
  {
    var k := if n < 0 then 0 else n;
    var calls := Replicate(CallRead, n);
    var tail: seq<seq<Byte>> := [PopRdi, ClearEdx, TestEax, MoveIfNegative, StoreCell];
    var c := InputChunks(n);
    assert c == [PushRdi] + calls + tail;
    assert c[k + 1..] == tail;
    CountReplicate(CallRead, n);
    CountConcat([PushRdi] + calls, tail, CallRead);
    CountConcat([PushRdi], calls, CallRead);
    assert [PushRdi][1..] == [];
    assert Count(tail, CallRead) == 0 by {
      assert CallRead !in tail;
      NotInCountsZero(tail, CallRead);
    }
  }

  lemma CountSmall(a: seq<Byte>, b: seq<Byte>, c: seq<Byte>, x: seq<Byte>)
    requires x != a && x != b && x != c
    ensures Count([a, b], x) == 0 && Count([c], x) == 0
  {
    NotInCountsZero([a, b], x);
    NotInCountsZero([c], x);
  }

  /** The registers the input epilogue touches; `eax` as a signed 32-bit value. */
  datatype Registers = Registers(eax: int, edx: int, sign: bool, cell: Byte)

  /** One instruction of the input epilogue, as x86-64 executes it. */
  function Execute(instruction: seq<Byte>, regs: Registers): Option<Registers>
  {
    if instruction == ClearEdx then Some(regs.(edx := 0))
    else if instruction == TestEax then Some(regs.(sign := regs.eax < 0))
    else if instruction == MoveIfNegative then Some(if regs.sign then regs.(eax := regs.edx) else regs)
    else if instruction == StoreCell then Some(regs.(cell := regs.eax % 256))
    else None
  }

  function ExecuteAll(instructions: seq<seq<Byte>>, regs: Registers): Option<Registers>
  {
    if instructions == [] then Some(regs)
    else
      match Execute(instructions[0], regs)
      case None => None
      case Some(next) => ExecuteAll(instructions[1..], next)
  }

  /**
   * After the read callback returns `v` in `eax`, the cell receives `v`'s low
   * byte, or 0 when `v` is negative (end of input).
   */
  lemma InputStoresClamped(n: int, v: int, regs: Registers)
    requires -0x8000_0000 <= v < 0x8000_0000
    ensures var k := if n < 0 then 0 else n;
      var after := ExecuteAll(InputChunks(n)[k + 2..], regs.(eax := v));
      after.Some? && after.value.cell == if v < 0 then 0 else v % 256
  {
    var k := if n < 0 then 0 else n;
    InputShape(n);
    var tail := InputChunks(n)[k + 2..];
    assert tail == [ClearEdx, TestEax, MoveIfNegative, StoreCell];
    var t1: seq<seq<Byte>> := tail[1..];
    var t2: seq<seq<Byte>> := t1[1..];
    var t3: seq<seq<Byte>> := t2[1..];
    assert t1 == [TestEax, MoveIfNegative, StoreCell];
    assert t2 == [MoveIfNegative, StoreCell];
    assert t3 == [StoreCell];
    assert |t3[1..]| == 0;
    var r0 := regs.(eax := v);
    var r1 := r0.(edx := 0);
    var r2 := r1.(sign := v < 0);
    var r3 := if v < 0 then r2.(eax := 0) else r2;
    var r4 := r3.(cell := r3.eax % 256);
    assert ExecuteAll(t3, r3) == Some(r4);
    assert ExecuteAll(t2, r2) == Some(r4);
    assert ExecuteAll(t1, r1) == Some(r4);
  }
}
