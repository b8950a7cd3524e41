/**
 * The 32-bit x86 assembly backend in AT&T syntax. It lowers the second node
 * set, keeping the cell pointer in `eax` (loaded from the first stack
 * argument). Output and input are not implemented: generation fails on the
 * first `Output` or `Input` node it meets, at any depth.
 */
module X86_32Att {
  import opened Wrappers
  import opened SeqUtil
  import opened Decimal
  import opened Effects
  import opened Lowering
  import opened Ast

  /** Why generation stops: the node has no 32-bit lowering. */
  datatype GenerationError = NotImplemented

  // -------------------------------------------------------------- lines

  function Prologue(): seq<string>
  {
    ["    .globl run", "    .type run, @function", "run:", "    movl   4(%esp), %eax"]
  }

  function Epilogue(): seq<string>
  {
    ["    ret"]
  }

  /** How a loop tests its cell and jumps. */
  const Syntax := LoopSyntax("    cmpb   $0, (%eax)", "    je     ", "    jmp    ")

  const IncCell := "    incb   (%eax)"
  const DecCell := "    decb   (%eax)"
  const AddCell := "    addb   $"
  const SubCell := "    subb   $"
  const CellOperand := ", (%eax)"
  const IncPointer := "    incl   %eax"
  const DecPointer := "    decl   %eax"
  const AddPointer := "    addl   $"
  const SubPointer := "    subl   $"
  const PointerOperand := ", %eax"

  /** The node types this backend lowers to one instruction each. */
  predicate Arithmetic(node: Node)
  {
    node.Add? || node.Subtract? || node.Forward? || node.Back?
  }

  /** A count of 1 uses inc or dec; any other count, negative or zero included, is the immediate of add or sub. */
  function NodeLine(node: Node): string
    requires Arithmetic(node)
  {
    match node
    case Add(n) => if n == 1 then IncCell else AddCell + IntToString(n) + CellOperand
    case Subtract(n) => if n == 1 then DecCell else SubCell + IntToString(n) + CellOperand
    case Forward(n) => if n == 1 then IncPointer else AddPointer + IntToString(n) + PointerOperand
    case Back(n) => if n == 1 then DecPointer else SubPointer + IntToString(n) + PointerOperand
  }

  /**
   * The lines of `nodes` inside the body labelled `parent`, when `id` loops of
   * that body come before them, or the error of the first `Output` or `Input`.
   */
  function BodyLines(nodes: seq<Node>, parent: string, id: nat): Result<seq<string>, GenerationError>
    decreases nodes
  {
    if nodes == [] then Ok([])
    else if nodes[0].Output? || nodes[0].Input? then Err(NotImplemented)
    else if nodes[0].Loop? then
      var name := parent + "_" + NatToString(id);
      var body := BodyLines(nodes[0].body, name, 0);
      if body.Err? then body
      else
        var rest := BodyLines(nodes[1..], parent, id + 1);
        if rest.Err? then rest else Ok(LoopLines(Syntax, name, body.value) + rest.value)
    else
      var rest := BodyLines(nodes[1..], parent, id);
      if rest.Err? then rest else Ok([NodeLine(nodes[0])] + rest.value)
  }

  /** `lines` in front of the lines `r` holds, or the error `r` carries. */
  function Prefixed(lines: seq<string>, r: Result<seq<string>, GenerationError>): Result<seq<string>, GenerationError>
  {
    if r.Ok? then Ok(lines + r.value) else r
  }

  // ---------------------------------------------------------- generator

  /** The body generator: one pass over the nodes, numbering loops with a running counter. */
  method GenerateBody(intermediate: seq<Node>, parentLabel: string) returns (r: Result<seq<string>, GenerationError>)
    ensures r == BodyLines(intermediate, parentLabel, 0)
    decreases intermediate
  {
    var lines: seq<string> := [];
    var loopId: nat := 0;
    assert intermediate[0..] == intermediate;
    PrefixedNothing(BodyLines(intermediate, parentLabel, 0));
    for i := 0 to |intermediate|
      invariant Prefixed(lines, BodyLines(intermediate[i..], parentLabel, loopId)) == BodyLines(intermediate, parentLabel, 0)
    {
      var node := intermediate[i];
      var rest := intermediate[i + 1..];
      assert intermediate[i..] == [node] + rest;
      match node
      case Output(_) =>
        FailStep(node, rest, parentLabel, loopId);
        return Err(NotImplemented);
      case Input(_) =>
        FailStep(node, rest, parentLabel, loopId);
        return Err(NotImplemented);
      case Loop(body) =>
        var loopLabel := parentLabel + "_" + NatToString(loopId);
        var bodyLines := GenerateBody(body, loopLabel);
        if bodyLines.Err? {
          FailStep(node, rest, parentLabel, loopId);
          return bodyLines;
        }
        LoopStep(lines, node, rest, parentLabel, loopId);
        lines := lines + LoopLines(Syntax, loopLabel, bodyLines.value);
        loopId := loopId + 1;
      case _ =>
        NodeStep(lines, node, rest, parentLabel, loopId);
        lines := lines + [NodeLine(node)];
    }
    assert intermediate[|intermediate|..] == [];
    assert lines + [] == lines;
    r := Ok(lines);
  }

  lemma PrefixedNothing(r: Result<seq<string>, GenerationError>)
    ensures Prefixed([], r) == r
  {
    if r.Ok? {
      assert [] + r.value == r.value;
    }
  }

  lemma FailStep(node: Node, rest: seq<Node>, parent: string, id: nat)
    requires node.Output? || node.Input? || (node.Loop? && BodyLines(node.body, parent + "_" + NatToString(id), 0).Err?)
    ensures BodyLines([node] + rest, parent, id).Err?
  {
    assert ([node] + rest)[0] == node;
  }

  lemma LoopStep(lines: seq<string>, node: Node, rest: seq<Node>, parent: string, id: nat)
    requires node.Loop?
    requires BodyLines(node.body, parent + "_" + NatToString(id), 0).Ok?
    ensures var name := parent + "_" + NatToString(id);
      Prefixed(lines, BodyLines([node] + rest, parent, id)) ==
        Prefixed(lines + LoopLines(Syntax, name, BodyLines(node.body, name, 0).value), BodyLines(rest, parent, id + 1))
  {
    assert ([node] + rest)[1..] == rest;
    var name := parent + "_" + NatToString(id);
    var after := BodyLines(rest, parent, id + 1);
    if after.Ok? {
      var loop := LoopLines(Syntax, name, BodyLines(node.body, name, 0).value);
      AppendAssociative(lines, loop, after.value);
    }
  }

  lemma NodeStep(lines: seq<string>, node: Node, rest: seq<Node>, parent: string, id: nat)
    requires Arithmetic(node)
    ensures Prefixed(lines, BodyLines([node] + rest, parent, id)) == Prefixed(lines + [NodeLine(node)], BodyLines(rest, parent, id))
  {
    assert ([node] + rest)[1..] == rest;
    var after := BodyLines(rest, parent, id);
    if after.Ok? {
      AppendAssociative(lines, [NodeLine(node)], after.value);
    }
  }

  /** The whole listing, or the error that stopped it; it fails exactly when the tree holds an `Output` or `Input`. */
  method GenerateX86_32Att(intermediate: seq<Node>) returns (r: Result<seq<string>, GenerationError>)
    ensures r.Err? <==> ContainsIo(intermediate)
    ensures r.Ok? ==>
              BodyLines(intermediate, "", 0).Ok? && r.value == Prologue() + BodyLines(intermediate, "", 0).value + Epilogue()
  {
    IoFails(intermediate, "", 0);
    var body := GenerateBody(intermediate, "");
    if body.Err? {
      return body;
    }
    r := Ok(Prologue() + body.value + Epilogue());
  }

  // ----------------------------------------------------- where it fails

  lemma ContainsIoCons(nodes: seq<Node>)
    requires nodes != []
    ensures ContainsIo(nodes) <==> NodeContainsIo(nodes[0]) || ContainsIo(nodes[1..])
  {
    if ContainsIo(nodes) {
      var i :| 0 <= i < |nodes| && NodeContainsIo(nodes[i]);
      if i > 0 {
        assert nodes[1..][i - 1] == nodes[i];
      }
    }
    if ContainsIo(nodes[1..]) {
      var i :| 0 <= i < |nodes[1..]| && NodeContainsIo(nodes[1..][i]);
      assert nodes[i + 1] == nodes[1..][i];
    }
  }

  /** Generation fails exactly when an `Output` or `Input` node occurs somewhere in the tree. */
  lemma {:induction false} IoFails(nodes: seq<Node>, parent: string, id: nat)
    ensures BodyLines(nodes, parent, id).Err? <==> ContainsIo(nodes)
    decreases nodes
  {
    if nodes != [] {
      ContainsIoCons(nodes);
      var node := nodes[0];
      if node.Loop? {
        IoFails(node.body, parent + "_" + NatToString(id), 0);
        IoFails(nodes[1..], parent, id + 1);
      } else {
        IoFails(nodes[1..], parent, id);
      }
    }
  }

  // ------------------------------------------------- what a line means

  /** The change to the cell or the pointer a node asks for. */
  function Intended(node: Node): Effect
    requires Arithmetic(node)
  {
    match node
    case Add(n) => CellAdd(n)
    case Subtract(n) => CellAdd(-n)
    case Forward(n) => PointerAdd(n)
    case Back(n) => PointerAdd(-n)
  }

  /** Reads an arithmetic line back as the change it makes to the cell or the pointer. */
  function LineEffect(line: string): Option<Effect>
  {
    if line == IncCell then Some(CellAdd(1))
    else if line == DecCell then Some(CellAdd(-1))
    else if line == IncPointer then Some(PointerAdd(1))
    else if line == DecPointer then Some(PointerAdd(-1))
    else OperandEffect(line)
  }

  /** Reads an add or sub line back by its immediate operand. */
  function OperandEffect(line: string): Option<Effect>
  {
    var addCell := SignedOperand(line, AddCell, CellOperand);
    var subCell := SignedOperand(line, SubCell, CellOperand);
    var addPointer := SignedOperand(line, AddPointer, PointerOperand);
    var subPointer := SignedOperand(line, SubPointer, PointerOperand);
    if addCell.Some? then Some(CellAdd(addCell.value))
    else if subCell.Some? then Some(CellAdd(-subCell.value))
    else if addPointer.Some? then Some(PointerAdd(addPointer.value))
    else if subPointer.Some? then Some(PointerAdd(-subPointer.value))
    else None
  }

  /** An add or sub line is none of the one-step lines, so it is read by its operand. */
  lemma OperandLine(line: string)
    requires |line| > 4 && (line[4] == 'a' || line[4] == 's')
    ensures LineEffect(line) == OperandEffect(line)
  {
    assert IncCell[4] == 'i' && DecCell[4] == 'd' && IncPointer[4] == 'i' && DecPointer[4] == 'd';
  }

  /** A line is read by an operand only under its own mnemonic: `add` or `sub`, on the cell or the pointer. */
  lemma OtherOperands(line: string)
    requires |line| > 7
    ensures line[4] != 'a' || line[7] != 'b' ==> SignedOperand(line, AddCell, CellOperand) == None
    ensures line[4] != 's' || line[7] != 'b' ==> SignedOperand(line, SubCell, CellOperand) == None
    ensures line[4] != 'a' || line[7] != 'l' ==> SignedOperand(line, AddPointer, PointerOperand) == None
  {
    if line[4] != 'a' {
      NoOperand(line, AddCell, CellOperand, 4);
      NoOperand(line, AddPointer, PointerOperand, 4);
    } else {
      NoOperand(line, SubCell, CellOperand, 4);
    }
    if line[7] != 'b' {
      NoOperand(line, AddCell, CellOperand, 7);
      NoOperand(line, SubCell, CellOperand, 7);
    }
    if line[7] != 'l' {
      NoOperand(line, AddPointer, PointerOperand, 7);
    }
  }

  /** Every arithmetic node's one line makes exactly the change the node asks for, whatever its count. */
  lemma NodeLineMeaning(node: Node)
    requires Arithmetic(node)
    ensures LineEffect(NodeLine(node)) == Some(Intended(node))
  {
    if node.Add? {
      AddMeaning(node);
    } else if node.Subtract? {
      SubtractMeaning(node);
    } else if node.Forward? {
      ForwardMeaning(node);
    } else {
      BackMeaning(node);
    }
  }

  lemma AddMeaning(node: Node)
    requires node.Add?
    ensures LineEffect(NodeLine(node)) == Some(Intended(node))
  {
    var n := node.n;
    if n == 1 {
      assert NodeLine(node) == IncCell;
      StepMeaning();
    } else {
      assert NodeLine(node) == AddCell + IntToString(n) + CellOperand;
      AddCellMeaning(n);
    }
  }

  lemma SubtractMeaning(node: Node)
    requires node.Subtract?
    ensures LineEffect(NodeLine(node)) == Some(Intended(node))
  {
    var n := node.n;
    if n == 1 {
      assert NodeLine(node) == DecCell;
      StepMeaning();
    } else {
      assert NodeLine(node) == SubCell + IntToString(n) + CellOperand;
      SubCellMeaning(n);
    }
  }

  lemma ForwardMeaning(node: Node)
    requires node.Forward?
    ensures LineEffect(NodeLine(node)) == Some(Intended(node))
  {
    var n := node.n;
    if n == 1 {
      assert NodeLine(node) == IncPointer;
      StepMeaning();
    } else {
      assert NodeLine(node) == AddPointer + IntToString(n) + PointerOperand;
      AddPointerMeaning(n);
    }
  }

  lemma BackMeaning(node: Node)
    requires node.Back?
    ensures LineEffect(NodeLine(node)) == Some(Intended(node))
  {
    var n := node.n;
    if n == 1 {
      assert NodeLine(node) == DecPointer;
      StepMeaning();
    } else {
      assert NodeLine(node) == SubPointer + IntToString(n) + PointerOperand;
      SubPointerMeaning(n);
    }
  }

  /** The four one-step lines read back as a step of one up or down. */
  lemma StepMeaning()
    ensures LineEffect(IncCell) == Some(CellAdd(1))
    ensures LineEffect(DecCell) == Some(CellAdd(-1))
    ensures LineEffect(IncPointer) == Some(PointerAdd(1))
    ensures LineEffect(DecPointer) == Some(PointerAdd(-1))
  {
    assert DecCell[4] != IncCell[4];
    assert IncPointer[7] != IncCell[7] && IncPointer[4] != DecCell[4];
    assert DecPointer[4] != IncCell[4] && DecPointer[7] != DecCell[7] && DecPointer[4] != IncPointer[4];
  }

  lemma AddCellMeaning(n: int)
    ensures LineEffect(AddCell + IntToString(n) + CellOperand) == Some(CellAdd(n))
  {
    var line := AddCell + IntToString(n) + CellOperand;
    assert line[4] == 'a';
    OperandLine(line);
    OtherOperands(line);
    assert SignedOperand(line, AddCell, CellOperand) == Some(n) by {
      SignedOperandOf(AddCell, n, CellOperand);
    }
  }

  lemma SubCellMeaning(n: int)
    ensures LineEffect(SubCell + IntToString(n) + CellOperand) == Some(CellAdd(-n))
  {
    var line := SubCell + IntToString(n) + CellOperand;
    assert line[4] == 's';
    OperandLine(line);
    OtherOperands(line);
    assert SignedOperand(line, SubCell, CellOperand) == Some(n) by {
      SignedOperandOf(SubCell, n, CellOperand);
    }
  }

  lemma AddPointerMeaning(n: int)
    ensures LineEffect(AddPointer + IntToString(n) + PointerOperand) == Some(PointerAdd(n))
  {
    var line := AddPointer + IntToString(n) + PointerOperand;
    assert line[4] == 'a' && line[7] == 'l';
    OperandLine(line);
    OtherOperands(line);
    assert SignedOperand(line, AddPointer, PointerOperand) == Some(n) by {
      SignedOperandOf(AddPointer, n, PointerOperand);
    }
  }

  lemma SubPointerMeaning(n: int)
    ensures LineEffect(SubPointer + IntToString(n) + PointerOperand) == Some(PointerAdd(-n))
  {
    var line := SubPointer + IntToString(n) + PointerOperand;
    assert line[4] == 's' && line[7] == 'l';
    OperandLine(line);
    OtherOperands(line);
    assert SignedOperand(line, SubPointer, PointerOperand) == Some(n) by {
      SignedOperandOf(SubPointer, n, PointerOperand);
    }
  }

  // ------------------------------------------------------------- labels

  lemma SyntaxValid()
    ensures Syntax.Valid()
  {
    assert Syntax.jump[..|Syntax.jumpIfZero|][6] != Syntax.jumpIfZero[6];
  }

  /**
   * When generation succeeds, the labels a body defines are, in order, the
   * start and end labels of its loops named by their paths, and its jumps
   * name them the same way.
   */
  lemma {:induction false} BodyLabels(nodes: seq<Node>, prefix: seq<nat>, id: nat)
    ensures var r := BodyLines(nodes, PathLabel(prefix), id);
      r.Ok? ==>
        && LabelDefs(r.value) == DefNames(Defs(AstShapes(nodes), prefix, id))
        && JumpTargets(r.value, Syntax) == DefNames(Jumps(AstShapes(nodes), prefix, id))
    decreases nodes
  {
    if nodes != [] && BodyLines(nodes, PathLabel(prefix), id).Ok? {
      SyntaxValid();
      var shapes := AstShapes(nodes);
      var parent := PathLabel(prefix);
      if nodes[0].Loop? {
        var p := prefix + [id];
        var name := parent + "_" + NatToString(id);
        PathLabelSnoc(prefix, id);
        BodyLabels(nodes[0].body, p, 0);
        BodyLabels(nodes[1..], prefix, id + 1);
        LoopLinesThen(Syntax, name, BodyLines(nodes[0].body, name, 0).value, BodyLines(nodes[1..], parent, id + 1).value);
        DefsStep(shapes, prefix, id);
        JumpsStep(shapes, prefix, id);
      } else {
        var line := NodeLine(nodes[0]);
        NodeLineIsInstruction(nodes[0]);
        InstructionsThen(Syntax, [line], BodyLines(nodes[1..], parent, id).value);
        BodyLabels(nodes[1..], prefix, id);
      }
    }
  }

  /** Only `run:` is defined in the prologue, and it does not jump. */
  lemma NodeLineIsInstruction(node: Node)
    requires Arithmetic(node)
    ensures Instruction(NodeLine(node))
  {
    var line := NodeLine(node);
    assert line[..4] == "    " && line[4] != 'j';
  }

  lemma PrologueLabels()
    ensures LabelDefs(Prologue()) == ["run"] && JumpTargets(Prologue(), Syntax) == []
  {
    var p := Prologue();
    PrologueInstructions();
    assert LineLabel(p[0]) == [] && LineJump(p[0], Syntax) == [] by {
      SyntaxValid();
      InstructionLine(p[0], Syntax);
    }
    assert LineLabel(p[1]) == [] && LineJump(p[1], Syntax) == [] by {
      SyntaxValid();
      InstructionLine(p[1], Syntax);
    }
    assert LineLabel(p[2]) == ["run"] && LineJump(p[2], Syntax) == [] by {
      SyntaxValid();
      LabelLine("run", Syntax);
      assert p[2] == "run" + ":";
    }
    assert LineLabel(p[3]) == [] && LineJump(p[3], Syntax) == [] by {
      SyntaxValid();
      InstructionLine(p[3], Syntax);
    }
    LinesOfFour(p[0], p[1], p[2], p[3], Syntax);
  }

  /** The prologue's lines other than the entry label are indented instructions. */
  lemma PrologueInstructions()
    ensures Instruction(Prologue()[0]) && Instruction(Prologue()[1]) && Instruction(Prologue()[3])
  {
    var p := Prologue();
    assert p[0][..4] == "    " && p[1][..4] == "    " && p[3][..4] == "    ";
  }


  /** The epilogue defines no label and does not jump. */
  lemma EpilogueLabels()
    ensures LabelDefs(Epilogue()) == [] && JumpTargets(Epilogue(), Syntax) == []
  {
    SyntaxValid();
    InstructionsOnly(Epilogue(), Syntax);
  }

  /**
   * In a listing that is generated, every label is defined once, and every
   * label a `je` or `jmp` names is defined exactly once.
   */
  lemma LabelsUnique(intermediate: seq<Node>)
    ensures BodyLines(intermediate, "", 0).Ok? ==>
      var lines := Prologue() + BodyLines(intermediate, "", 0).value + Epilogue();
      && Distinct(LabelDefs(lines))
      && forall t :: t in JumpTargets(lines, Syntax) ==> Count(LabelDefs(lines), t) == 1
  {
    if BodyLines(intermediate, "", 0).Ok? {
      BodyLabels(intermediate, [], 0);
      PrologueLabels();
      EpilogueLabels();
      ListingLabels(Prologue(), BodyLines(intermediate, "", 0).value, Epilogue(), Syntax, AstShapes(intermediate), "run");
    }
  }
}
