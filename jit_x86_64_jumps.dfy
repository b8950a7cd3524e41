/**
 * Where the loop jumps of the machine-code backend land. A loop whose body
 * encodes to K bytes is `cmp` (3 bytes), `je K+2` (2 bytes), the body, and
 * `jmp 0x100-K-7` (2 bytes). A short jump's target is the address after the
 * jump plus its displacement read as a signed byte; the displacements are
 * right exactly when both fit in a signed byte, that is when K <= 121.
 */
module JitX86_64Jumps {
  import opened SeqUtil
  import opened Hex
  import opened Ast
  import opened JitX86_64
  import opened JitX86_64Laws

  /** The target of the two-byte short jump at `at`. */
  function JumpTarget(code: seq<Byte>, at: nat): int
    requires at + 1 < |code|
  {
    at + 2 + Signed(code[at + 1])
  }

  /**
   * A loop with a K-byte body, placed at `at`: `je` goes to the byte just after
   * the loop's closing `jmp`, and that `jmp` goes back to the loop's `cmp`.
   */
  predicate LoopLands(code: seq<Byte>, at: nat, k: nat)
  {
    && at + k + 7 <= |code|
    && code[at..at + 3] == CompareZero
    && code[at + 3] == 0x74 && JumpTarget(code, at + 3) == at + k + 7
    && code[at + k + 5] == 0xEB && JumpTarget(code, at + k + 5) == at
  }

  /** Every loop of `nodes`, laid out from `at`, lands right, at every depth. */
  predicate AllLoopsLand(code: seq<Byte>, at: nat, nodes: seq<Node>)
    decreases nodes, 1
  {
    nodes == [] || (NodeLands(code, at, nodes[0]) && AllLoopsLand(code, at + NodeSize(nodes[0]), nodes[1..]))
  }

  predicate NodeLands(code: seq<Byte>, at: nat, node: Node)
    decreases node, 0
  {
    match node
    case Loop(body) => LoopLands(code, at, BodySize(body)) && AllLoopsLand(code, at + 5, body)
    case _ => true
  }

  /** Every loop body, at every depth, encodes to at most 121 bytes. */
  predicate ShortJumpsFit(nodes: seq<Node>)
    decreases nodes, 1
  {
    forall i :: 0 <= i < |nodes| ==> NodeJumpsFit(nodes[i])
  }

  predicate NodeJumpsFit(node: Node)
    decreases node, 0
  {
    match node
    case Loop(body) => BodySize(body) <= 121 && ShortJumpsFit(body)
    case _ => true
  }

  /** The bytes of a loop node. */
  lemma LoopBytes(body: seq<Node>)
    requires EncodableNode(Loop(body))
    ensures NodeBytes(Loop(body)) ==
      CompareZero + [0x74, BodySize(body) + 2] + Encode(body) + [0xEB, 0x100 - BodySize(body) - 7]
  {
    var compiled := Encode(body);
    var k := |compiled|;
    assert k == BodySize(body);
    OneByteOperand(JumpIfZero, k + 2);
    OneByteOperand(JumpShort, 0x100 - k - 7);
    var je: seq<Byte> := [0x74, k + 2];
    var jmp: seq<Byte> := [0xEB, 0x100 - k - 7];
    assert B(JumpIfZero, k + 2, 1) == je;
    assert B(JumpShort, 0x100 - k - 7, 1) == jmp;
    assert LoopChunks(compiled) == [CompareZero, je, compiled, jmp];
    assert NodeChunks(Loop(body)) == LoopChunks(compiled);
    FlattenFour(CompareZero, je, compiled, jmp);
  }

  /** The jumps of one loop land right when its body is at most 121 bytes, wherever it is placed. */
  lemma OneLoopLands(p: seq<Byte>, body: seq<Node>, q: seq<Byte>)
    requires EncodableNode(Loop(body)) && BodySize(body) <= 121
    ensures LoopLands(p + NodeBytes(Loop(body)) + q, |p|, BodySize(body))
  {
    var k := BodySize(body);
    LoopBytes(body);
    var code := p + NodeBytes(Loop(body)) + q;
    var at := |p|;
    assert code[at..at + 3] == CompareZero;
    assert code[at + 3] == 0x74 && code[at + 4] == k + 2;
    assert code[at + k + 5] == 0xEB && code[at + k + 6] == 0x100 - k - 7;
  }

  /**
   * Jump landing: in any code that contains the encoding of `nodes`, every
   * loop's `je` and `jmp` land on the right instruction, provided every loop
   * body is at most 121 bytes.
   */
  lemma {:induction false} LoopsLand(p: seq<Byte>, nodes: seq<Node>, q: seq<Byte>)
    requires Encodable(nodes) && ShortJumpsFit(nodes)
    ensures AllLoopsLand(p + Encode(nodes) + q, |p|, nodes)
    decreases nodes, 1
  {
    if nodes != [] {
      EncodeCons(nodes);
      ShortJumpsFitTail(nodes);
      var head := NodeBytes(nodes[0]);
      var rest := Encode(nodes[1..]);
      var code := p + Encode(nodes) + q;
      AppendAssociative(p, head, rest);
      AppendAssociative(p + head, rest, q);
      assert code == p + head + (rest + q);
      NodeLandsIn(p, nodes[0], rest + q);
      LoopsLand(p + head, nodes[1..], q);
    }
  }

  lemma ShortJumpsFitTail(nodes: seq<Node>)
    requires nodes != [] && ShortJumpsFit(nodes)
    ensures NodeJumpsFit(nodes[0]) && ShortJumpsFit(nodes[1..])
  {
    forall i | 0 <= i < |nodes[1..]|
      ensures NodeJumpsFit(nodes[1..][i])
    {
      assert nodes[1..][i] == nodes[i + 1];
    }
  }

  lemma {:induction false} NodeLandsIn(p: seq<Byte>, node: Node, q: seq<Byte>)
    requires EncodableNode(node) && NodeJumpsFit(node)
    ensures NodeLands(p + NodeBytes(node) + q, |p|, node)
    decreases node, 0
  {
    if node.Loop? {
      var body := node.body;
      var k := BodySize(body);
      OneLoopLands(p, body, q);
      LoopBytes(body);
      var opening: seq<Byte> := CompareZero + [0x74, k + 2];
      var closing: seq<Byte> := [0xEB, 0x100 - k - 7];
      var compiled := Encode(body);
      assert NodeBytes(node) == opening + compiled + closing;
      AppendAssociative(p, opening + compiled, closing);
      AppendAssociative(p, opening, compiled);
      AppendAssociative((p + opening) + compiled, closing, q);
      assert p + NodeBytes(node) + q == (p + opening) + compiled + (closing + q);
      LoopsLand(p + opening, body, closing + q);
    }
  }

  /** In the whole program, whose body starts after the 24-byte prologue, every loop lands right. */
  lemma GeneratedLoopsLand(ast: seq<Node>, writeChar: nat, readChar: nat)
    requires Encodable(ast) && ShortJumpsFit(ast) && writeChar < Pow256(8) && readChar < Pow256(8)
    ensures AllLoopsLand(GenerateX86_64(ast, writeChar, readChar), 24, ast)
  {
    GenerateLayout(ast, writeChar, readChar);
    PrologueLayout(writeChar, readChar);
    LoopsLand(PrologueBytes(writeChar, readChar), ast, PopReg(13) + PopReg(12) + Return);
  }

  /**
   * The bound is tight: a loop whose body the assembler accepts has both jumps
   * landing right exactly when the body is at most 121 bytes. For 122 to 125
   * bytes `je` still lands but `jmp` jumps forward; beyond that both are wrong.
   */
  lemma ShortJumpRange(body: seq<Node>)
    requires EncodableNode(Loop(body))
    ensures LoopLands(NodeBytes(Loop(body)), 0, BodySize(body)) <==> BodySize(body) <= 121
  {
    var k := BodySize(body);
    var code := NodeBytes(Loop(body));
    LoopBytes(body);
    assert code[4] == k + 2 && code[k + 6] == 0x100 - k - 7;
    assert code == [] + code + [];
    if k <= 121 {
      OneLoopLands([], body, []);
    }
  }
}
