/**
 * The machine-code backend: instruction selection straight to x86-64 bytes.
 * Each node becomes a list of byte chunks; a loop's body is encoded first so
 * that its length can set the two short-jump displacements.
 *
 * Registers: `rdi` points at the current cell, `r12` holds the write-char
 * callback and `r13` the read-char callback.
 */
module JitX86_64 {
  import opened SeqUtil
  import opened Hex
  import opened Ast

  // ------------------------------------------------------- instruction bytes

  /** `push r<reg>` and `pop r<reg>` for the extended registers r8 to r15. */
  function PushReg(reg: int): seq<Byte>
    requires 8 <= reg < 16
  {
    [0x41, 0x50 + (reg - 8)]
  }

  function PopReg(reg: int): seq<Byte>
    requires 8 <= reg < 16
  {
    [0x41, 0x58 + (reg - 8)]
  }

  const PushRdi: seq<Byte> := [0x57]
  const PopRdi: seq<Byte> := [0x5F]
  const LoadCell: seq<Byte> := [0x48, 0x0F, 0xB6, 0x3F]    // movzx rdi, byte ptr [rdi]
  const CallWrite: seq<Byte> := [0x41, 0xFF, 0xD4]         // call r12
  const MoveResult: seq<Byte> := [0x48, 0x89, 0xC7]        // mov rdi, rax
  const CallRead: seq<Byte> := [0x41, 0xFF, 0xD5]          // call r13
  const ClearEdx: seq<Byte> := [0x31, 0xD2]                // xor edx, edx
  const TestEax: seq<Byte> := [0x85, 0xC0]                 // test eax, eax
  const MoveIfNegative: seq<Byte> := [0x0F, 0x48, 0xC2]    // cmovs eax, edx
  const StoreCell: seq<Byte> := [0x88, 0x07]               // mov byte ptr [rdi], al
  const CompareZero: seq<Byte> := [0x80, 0x3F, 0x00]       // cmp byte ptr [rdi], 0
  const JumpIfZero: seq<Byte> := [0x74]                    // je rel8
  const JumpShort: seq<Byte> := [0xEB]                     // jmp rel8
  const Return: seq<Byte> := [0xC3]

  // -------------------------------------------------------------- generator

  /** Saves r12 and r13 and loads the two callback addresses into them. */
  function Prologue(writeChar: nat, readChar: nat): seq<seq<Byte>>
    requires writeChar < Pow256(8) && readChar < Pow256(8)
  {
    [[0x41, 0x54], [0x41, 0x55], B([0x49, 0xBC], writeChar, 8), B([0x49, 0xBD], readChar, 8)]
  }

  /** Restores r13 and r12 and returns. */
  function Epilogue(): seq<seq<Byte>>
  {
    [[0x41, 0x5D], [0x41, 0x5C], Return]
  }

  /** The size in bytes of a node's encoding, read off the instruction table. */
  function NodeSize(node: Node): nat
    decreases node, 0
  {
    match node
    case Add(n) => if n == 1 then 2 else 3
    case Subtract(n) => if n == 1 then 2 else 3
    case Forward(n) => if n == 1 then 3 else 4
    case Back(n) => if n == 1 then 3 else 4
    case Output(n) => 6 + (if n >= 1 then 3 * (2 * n - 1) else 0)
    case Input(n) => 11 + (if n >= 1 then 3 * n else 0)
    case Loop(body) => BodySize(body) + 7
  }

  function BodySize(nodes: seq<Node>): nat
    decreases nodes, 1
  {
    if nodes == [] then 0 else NodeSize(nodes[0]) + BodySize(nodes[1..])
  }

  /**
   * What the assembler accepts: every operand it writes fits in its one byte,
   * which for a loop means a body of at most 249 bytes (the backward
   * displacement `0x100 - K - 7` must not be negative).
   */
  predicate EncodableNode(node: Node)
    decreases node, 0
  {
    match node
    case Add(n) => 0 <= n < 256
    case Subtract(n) => 0 <= n < 256
    case Forward(n) => 0 <= n < 256
    case Back(n) => 0 <= n < 256
    case Output(_) => true
    case Input(_) => true
    case Loop(body) => Encodable(body) && BodySize(body) <= 249
  }

  predicate Encodable(nodes: seq<Node>)
    decreases nodes, 1
  {
    forall i :: 0 <= i < |nodes| ==> EncodableNode(nodes[i])
  }

  /** The chunks for `Output(n)`: the cell is written `n` times, the result of each write feeding the next. */
  function OutputChunks(n: int): seq<seq<Byte>>
  {
    [PushRdi, LoadCell] + DropLast(Alternate(CallWrite, MoveResult, n)) + [PopRdi]
  }

  /** The chunks for `Input(n)`: `n` reads, then a negative result (end of input) becomes 0 and is stored. */
  function InputChunks(n: int): seq<seq<Byte>>
  {
    [PushRdi] + Replicate(CallRead, n) + [PopRdi, ClearEdx, TestEax, MoveIfNegative, StoreCell]
  }

  /** The loop around an encoded body: compare, jump past the loop, body, jump back. */
  function LoopChunks(compiled: seq<Byte>): seq<seq<Byte>>
    requires |compiled| <= 249
  {
    OneByteOperand(JumpIfZero, |compiled| + 2);
    OneByteOperand(JumpShort, 0x100 - |compiled| - 7);
    [CompareZero, B(JumpIfZero, |compiled| + 2, 1), compiled, B(JumpShort, 0x100 - |compiled| - 7, 1)]
  }

  /** The chunks a node is encoded to; they total `NodeSize(node)` bytes. */
  function NodeChunks(node: Node): (r: seq<seq<Byte>>)
    requires EncodableNode(node)
    ensures |Flatten(r)| == NodeSize(node)
    decreases node, 0
  {
    OneByteOperand([], 0);
    match node
    case Add(n) => if n == 1 then [[0xFE, 0x07]] else [B([0x80, 0x07], n, 1)]
    case Subtract(n) => if n == 1 then [[0xFE, 0x0F]] else [B([0x80, 0x2F], n, 1)]
    case Forward(n) => if n == 1 then [[0x48, 0xFF, 0xC7]] else [B([0x48, 0x83, 0xC7], n, 1)]
    case Back(n) => if n == 1 then [[0x48, 0xFF, 0xCF]] else [B([0x48, 0x83, 0xEF], n, 1)]
    case Output(n) => OutputLength(n); OutputChunks(n)
    case Input(n) => InputLength(n); InputChunks(n)
    case Loop(body) =>
      var compiled := Flatten(BodyChunks(body));
      var r := LoopChunks(compiled);
      LoopLength(compiled);
      r
  }

  /** The chunks of a node sequence: each node's chunks, in order. */
  function BodyChunks(nodes: seq<Node>): (r: seq<seq<Byte>>)
    requires Encodable(nodes)
    ensures |Flatten(r)| == BodySize(nodes)
    decreases nodes, 1
  {
    if nodes == [] then []
    else
      var head := NodeChunks(nodes[0]);
      var tail := BodyChunks(nodes[1..]);
      FlattenConcat(head, tail);
      head + tail
  }

  /** The whole program: prologue, body and epilogue laid end to end. */
  function GenerateX86_64(ast: seq<Node>, writeChar: nat, readChar: nat): seq<Byte>
    requires Encodable(ast) && writeChar < Pow256(8) && readChar < Pow256(8)
  {
    Flatten(Prologue(writeChar, readChar) + BodyChunks(ast) + Epilogue())
  }

  /** The encoding of a node sequence as bytes. */
  function Encode(nodes: seq<Node>): (r: seq<Byte>)
    requires Encodable(nodes)
    ensures |r| == BodySize(nodes)
  {
    Flatten(BodyChunks(nodes))
  }

  // ------------------------------------------------------- sizes of chunks

  lemma OutputLength(n: int)
    ensures |Flatten(OutputChunks(n))| == 6 + (if n >= 1 then 3 * (2 * n - 1) else 0)
  {
    var calls := DropLast(Alternate(CallWrite, MoveResult, n));
    FlattenConcat([PushRdi, LoadCell] + calls, [PopRdi]);
    FlattenConcat([PushRdi, LoadCell], calls);
    FlattenUniformLength(calls, 3);
    FlattenTwo(PushRdi, LoadCell);
    FlattenOne(PopRdi);
  }

  lemma InputLength(n: int)
    ensures |Flatten(InputChunks(n))| == 11 + (if n >= 1 then 3 * n else 0)
  {
    var calls := Replicate(CallRead, n);
    var tail := [PopRdi, ClearEdx, TestEax, MoveIfNegative, StoreCell];
    FlattenConcat([PushRdi] + calls, tail);
    FlattenConcat([PushRdi], calls);
    FlattenUniformLength(calls, 3);
    FlattenFive(PopRdi, ClearEdx, TestEax, MoveIfNegative, StoreCell);
    FlattenOne(PushRdi);
  }

  lemma LoopLength(compiled: seq<Byte>)
    requires |compiled| <= 249
    ensures |Flatten(LoopChunks(compiled))| == |compiled| + 7
  {
    OneByteOperand(JumpIfZero, |compiled| + 2);
    OneByteOperand(JumpShort, 0x100 - |compiled| - 7);
    FlattenFour(CompareZero, B(JumpIfZero, |compiled| + 2, 1), compiled, B(JumpShort, 0x100 - |compiled| - 7, 1));
  }

  /** Chunks all of one length `w` flatten to `w` bytes each. */
  lemma {:induction false} FlattenUniformLength(chunks: seq<seq<Byte>>, w: nat)
    requires forall i :: 0 <= i < |chunks| ==> |chunks[i]| == w
    ensures |Flatten(chunks)| == w * |chunks|
  {
    if chunks != [] {
      FlattenUniformLength(chunks[1..], w);
    }
  }
}
