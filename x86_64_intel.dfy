/**
 * The x86-64 assembly backend in Intel syntax. Lines are generated from the
 * first node set: `rdi` points at the current cell, output goes through
 * `putchar` and input through `getchar`, and each loop becomes a labelled
 * test-and-jump pair around its body.
 */
module X86_64Intel {
  import opened Wrappers
  import opened SeqUtil
  import opened Decimal
  import opened Effects
  import opened Lowering
  import opened Intermediate

  // -------------------------------------------------------------- lines

  function Prologue(): seq<string>
  {
    [".globl run", ".intel_syntax noprefix", ".type run, @function", "", "run:"]
  }

  function Epilogue(): seq<string>
  {
    ["    ret", "", ".section .note.GNU-stack, \"\", @progbits"]
  }

  /** How a loop tests its cell and jumps. */
  const Syntax := LoopSyntax("    cmp   byte ptr [rdi], 0", "    je    ", "    jmp   ")

  const IncCell := "    inc   byte ptr [rdi]"
  const DecCell := "    dec   byte ptr [rdi]"
  const AddCell := "    add   byte ptr [rdi], "
  const SubCell := "    sub   byte ptr [rdi], "
  const IncPointer := "    inc   rdi"
  const DecPointer := "    dec   rdi"
  const AddPointer := "    add   rdi, "
  const SubPointer := "    sub   rdi, "
  const CallPutchar := "    call  putchar"
  const MoveResult := "    mov   rdi, rax"
  const CallGetchar := "    call  getchar"

  /** `Add(n)`: inc or dec for one step, otherwise add `n` or subtract `-n` (so `Add(0)` subtracts 0). */
  function AddLine(n: int): string
  {
    if n == 1 then IncCell
    else if n == -1 then DecCell
    else if n > 1 then AddCell + NatToString(n)
    else SubCell + NatToString(-n)
  }

  /** `Move(n)`: the same four forms on the pointer register. */
  function MoveLine(n: int): string
  {
    if n == 1 then IncPointer
    else if n == -1 then DecPointer
    else if n > 1 then AddPointer + NatToString(n)
    else SubPointer + NatToString(-n)
  }

  /** `Output(n)`: save the pointer, load the cell, `n` calls of `putchar`, each result passed on to the next. */
  function OutputLines(n: int): seq<string>
  {
    ["    push  rdi", "    movzx rdi, byte ptr [rdi]"]
      + DropLast(Alternate(CallPutchar, MoveResult, n))
      + ["    pop   rdi"]
  }

  /** `Input(n)`: `n` calls of `getchar`, then the last result's low byte is stored in the cell. */
  function InputLines(n: int): seq<string>
  {
    ["    push  rdi"] + Replicate(CallGetchar, n) + ["    pop   rdi", "    mov   byte ptr [rdi], al"]
  }

  /** The lines of a node other than a loop. */
  function NodeLines(node: Node): seq<string>
    requires !node.Loop?
  {
    match node
    case Add(n) => [AddLine(n)]
    case Move(n) => [MoveLine(n)]
    case Output(n) => OutputLines(n)
    case Input(n) => InputLines(n)
  }

  /**
   * The lines of `nodes` inside the body labelled `parent`, when `id` loops of
   * that body come before them. A loop gets the label `parent_<id>`.
   */
  function BodyLines(nodes: seq<Node>, parent: string, id: nat): seq<string>
    decreases nodes
  {
    if nodes == [] then []
    else if nodes[0].Loop? then
      var name := parent + "_" + NatToString(id);
      LoopLines(Syntax, name, BodyLines(nodes[0].body, name, 0)) + BodyLines(nodes[1..], parent, id + 1)
    else NodeLines(nodes[0]) + BodyLines(nodes[1..], parent, id)
  }

  // ---------------------------------------------------------- generator

  /** The body generator: one pass over the nodes, numbering loops with a running counter. */
  method GenerateBody(intermediate: seq<Node>, parentLabel: string) returns (lines: seq<string>)
    ensures lines == BodyLines(intermediate, parentLabel, 0)
    decreases intermediate
  {
    lines := [];
    var loopId: nat := 0;
    for i := 0 to |intermediate|
      invariant BodyLines(intermediate, parentLabel, 0) == lines + BodyLines(intermediate[i..], parentLabel, loopId)
    {
      var node := intermediate[i];
      if node.Loop? {
        var loopLabel := parentLabel + "_" + NatToString(loopId);
        var bodyLines := GenerateBody(node.body, loopLabel);
        LoopStep(intermediate, i, parentLabel, loopId, lines);
        lines := lines + LoopLines(Syntax, loopLabel, bodyLines);
        loopId := loopId + 1;
      } else {
        NodeStep(intermediate, i, parentLabel, loopId, lines);
        lines := lines + NodeLines(node);
      }
    }
    assert intermediate[|intermediate|..] == [];
  }

  /** One loop node of the generator's pass: its lines are appended and the loop counter advances. */
  lemma LoopStep(nodes: seq<Node>, i: nat, parent: string, id: nat, lines: seq<string>)
    requires i < |nodes| && nodes[i].Loop?
    requires BodyLines(nodes, parent, 0) == lines + BodyLines(nodes[i..], parent, id)
    ensures var name := parent + "_" + NatToString(id);
      BodyLines(nodes, parent, 0) ==
        lines + LoopLines(Syntax, name, BodyLines(nodes[i].body, name, 0)) + BodyLines(nodes[i + 1..], parent, id + 1)
  {
    var name := parent + "_" + NatToString(id);
    assert nodes[i..][0] == nodes[i];
    assert nodes[i..][1..] == nodes[i + 1..];
    AppendAssociative(lines, LoopLines(Syntax, name, BodyLines(nodes[i].body, name, 0)), BodyLines(nodes[i + 1..], parent, id + 1));
  }

  /** One other node of the generator's pass: its lines are appended. */
  lemma NodeStep(nodes: seq<Node>, i: nat, parent: string, id: nat, lines: seq<string>)
    requires i < |nodes| && !nodes[i].Loop?
    requires BodyLines(nodes, parent, 0) == lines + BodyLines(nodes[i..], parent, id)
    ensures BodyLines(nodes, parent, 0) == lines + NodeLines(nodes[i]) + BodyLines(nodes[i + 1..], parent, id)
  {
    assert nodes[i..][0] == nodes[i];
    assert nodes[i..][1..] == nodes[i + 1..];
    AppendAssociative(lines, NodeLines(nodes[i]), BodyLines(nodes[i + 1..], parent, id));
  }

  /** The whole listing: prologue, body, epilogue. */
  method GenerateX86_64Intel(intermediate: seq<Node>) returns (lines: seq<string>)
    ensures lines == Prologue() + BodyLines(intermediate, "", 0) + Epilogue()
  {
    var body := GenerateBody(intermediate, "");
    lines := Prologue() + body + Epilogue();
  }

  // ------------------------------------------------- what a line means

  /** Reads an arithmetic line back as the change it makes to the cell or the pointer. */
  function LineEffect(line: string): Option<Effect>
  {
    if line == IncCell then Some(CellAdd(1))
    else if line == DecCell then Some(CellAdd(-1))
    else if line == IncPointer then Some(PointerAdd(1))
    else if line == DecPointer then Some(PointerAdd(-1))
    else OperandEffect(line)
  }

  /** Reads an add or sub line back by its immediate operand. */
  function OperandEffect(line: string): Option<Effect>
  {
    var addCell := UnsignedOperand(line, AddCell, "");
    var subCell := UnsignedOperand(line, SubCell, "");
    var addPointer := UnsignedOperand(line, AddPointer, "");
    var subPointer := UnsignedOperand(line, SubPointer, "");
    if addCell.Some? then Some(CellAdd(addCell.value))
    else if subCell.Some? then Some(CellAdd(-(subCell.value as int)))
    else if addPointer.Some? then Some(PointerAdd(addPointer.value))
    else if subPointer.Some? then Some(PointerAdd(-(subPointer.value as int)))
    else None
  }

  /** An add or sub line is none of the one-step lines, so it is read by its operand. */
  lemma OperandLine(line: string)
    requires |line| > 4 && (line[4] == 'a' || line[4] == 's')
    ensures LineEffect(line) == OperandEffect(line)
  {
    assert IncCell[4] == 'i' && DecCell[4] == 'd' && IncPointer[4] == 'i' && DecPointer[4] == 'd';
  }

  /** A line is read by an operand only under its own mnemonic: `add` or `sub`, on the cell or the pointer. */
  lemma OtherOperands(line: string)
    requires |line| > 10
    ensures line[4] != 'a' || line[10] != 'b' ==> UnsignedOperand(line, AddCell, "") == None
    ensures line[4] != 's' || line[10] != 'b' ==> UnsignedOperand(line, SubCell, "") == None
    ensures line[4] != 'a' || line[10] != 'r' ==> UnsignedOperand(line, AddPointer, "") == None
  {
    if line[4] != 'a' {
      NoOperand(line, AddCell, "", 4);
      NoOperand(line, AddPointer, "", 4);
    } else {
      NoOperand(line, SubCell, "", 4);
    }
    if line[10] != 'b' {
      NoOperand(line, AddCell, "", 10);
      NoOperand(line, SubCell, "", 10);
    }
    if line[10] != 'r' {
      NoOperand(line, AddPointer, "", 10);
    }
  }

  /** The one line of `Add(n)` adds exactly `n` to the cell, for every `n`, zero included. */
  lemma AddLineMeaning(n: int)
    ensures LineEffect(AddLine(n)) == Some(CellAdd(n))
  {
    var line := AddLine(n);
    if n == 1 {
      assert line == IncCell;
      StepMeaning();
    } else if n == -1 {
      assert line == DecCell;
      StepMeaning();
    } else if n > 1 {
      assert line == AddCell + NatToString(n);
      AddCellMeaning(n);
    } else {
      assert line == SubCell + NatToString(-n);
      SubCellMeaning(-n);
    }
  }

  /** The one line of `Move(n)` moves the pointer by exactly `n`, for every `n`, zero included. */
  lemma MoveLineMeaning(n: int)
    ensures LineEffect(MoveLine(n)) == Some(PointerAdd(n))
  {
    var line := MoveLine(n);
    if n == 1 {
      assert line == IncPointer;
      StepMeaning();
    } else if n == -1 {
      assert line == DecPointer;
      StepMeaning();
    } else if n > 1 {
      assert line == AddPointer + NatToString(n);
      AddPointerMeaning(n);
    } else {
      assert line == SubPointer + NatToString(-n);
      SubPointerMeaning(-n);
    }
  }

  /** The four one-step lines read back as a step of one up or down. */
  lemma StepMeaning()
    ensures LineEffect(IncCell) == Some(CellAdd(1))
    ensures LineEffect(DecCell) == Some(CellAdd(-1))
    ensures LineEffect(IncPointer) == Some(PointerAdd(1))
    ensures LineEffect(DecPointer) == Some(PointerAdd(-1))
  {
    assert DecCell[4] != IncCell[4];
    assert IncPointer[10] != IncCell[10] && IncPointer[4] != DecCell[4];
    assert DecPointer[4] != IncCell[4] && DecPointer[10] != DecCell[10] && DecPointer[4] != IncPointer[4];
  }

  lemma AddCellMeaning(m: nat)
    ensures LineEffect(AddCell + NatToString(m)) == Some(CellAdd(m))
  {
    var line := AddCell + NatToString(m);
    assert line[4] == 'a';
    OperandLine(line);
    OtherOperands(line);
    assert UnsignedOperand(line, AddCell, "") == Some(m) by {
      assert line == AddCell + NatToString(m) + "";
      UnsignedOperandOf(AddCell, m, "");
    }
  }

  lemma SubCellMeaning(m: nat)
    ensures LineEffect(SubCell + NatToString(m)) == Some(CellAdd(-(m as int)))
  {
    var line := SubCell + NatToString(m);
    assert line[4] == 's';
    OperandLine(line);
    OtherOperands(line);
    assert UnsignedOperand(line, SubCell, "") == Some(m) by {
      assert line == SubCell + NatToString(m) + "";
      UnsignedOperandOf(SubCell, m, "");
    }
  }

  lemma AddPointerMeaning(m: nat)
    ensures LineEffect(AddPointer + NatToString(m)) == Some(PointerAdd(m))
  {
    var line := AddPointer + NatToString(m);
    assert line[4] == 'a' && line[10] == 'r';
    OperandLine(line);
    OtherOperands(line);
    assert UnsignedOperand(line, AddPointer, "") == Some(m) by {
      assert line == AddPointer + NatToString(m) + "";
      UnsignedOperandOf(AddPointer, m, "");
    }
  }

  lemma SubPointerMeaning(m: nat)
    ensures LineEffect(SubPointer + NatToString(m)) == Some(PointerAdd(-(m as int)))
  {
    var line := SubPointer + NatToString(m);
    assert line[4] == 's' && line[10] == 'r';
    OperandLine(line);
    OtherOperands(line);
    assert UnsignedOperand(line, SubPointer, "") == Some(m) by {
      assert line == SubPointer + NatToString(m) + "";
      UnsignedOperandOf(SubPointer, m, "");
    }
  }

  /**
   * `Output(n)` is 2n+2 lines: push, load, then `call putchar` n times with
   * `mov rdi, rax` between consecutive calls, then pop. For `n <= 0` only the
   * three fixed lines remain.
   */
  lemma OutputShape(n: int)
    ensures var r := OutputLines(n);
      && |r| == (if n >= 1 then 2 * n + 2 else 3)
      && r[0] == "    push  rdi" && r[1] == "    movzx rdi, byte ptr [rdi]" && r[|r| - 1] == "    pop   rdi"
      && (forall j :: 2 <= j < |r| - 1 ==> r[j] == if j % 2 == 0 then CallPutchar else MoveResult)
      && Count(r, CallPutchar) == (if n >= 1 then n else 0)
      && Count(r, MoveResult) == (if n >= 1 then n - 1 else 0)
  {
    var calls := DropLast(Alternate(CallPutchar, MoveResult, n));
    var head := ["    push  rdi", "    movzx rdi, byte ptr [rdi]"];
    var tail := ["    pop   rdi"];
    var r := head + calls + tail;
    assert OutputLines(n) == r;
    forall j | 2 <= j < |r| - 1
      ensures r[j] == if j % 2 == 0 then CallPutchar else MoveResult
    {
      assert r[j] == calls[j - 2];
    }
    NotInCountsZero(head, CallPutchar);
    NotInCountsZero(head, MoveResult);
    NotInCountsZero(tail, CallPutchar);
    NotInCountsZero(tail, MoveResult);
    CountConcat(head + calls, tail, CallPutchar);
    CountConcat(head + calls, tail, MoveResult);
    CountConcat(head, calls, CallPutchar);
    CountConcat(head, calls, MoveResult);
    if n >= 1 {
      CountAlternation(CallPutchar, MoveResult, n);
    } else {
      assert calls == [];
    }
  }

  /**
   * `Input(n)` is n+3 lines: push, `call getchar` n times, pop, and a store of
   * `al`; the store is not preceded by any check of the result.
   */
  lemma InputShape(n: int)
    ensures var r := InputLines(n);
      && |r| == (if n >= 0 then n + 3 else 3)
      && r[0] == "    push  rdi"
      && (forall j :: 1 <= j < |r| - 2 ==> r[j] == CallGetchar)
      && r[|r| - 2] == "    pop   rdi" && r[|r| - 1] == "    mov   byte ptr [rdi], al"
      && Count(r, CallGetchar) == (if n >= 0 then n else 0)
  {
    var calls := Replicate(CallGetchar, n);
    var head := ["    push  rdi"];
    var tail := ["    pop   rdi", "    mov   byte ptr [rdi], al"];
    var r := head + calls + tail;
    assert InputLines(n) == r;
    forall j | 1 <= j < |r| - 2
      ensures r[j] == CallGetchar
    {
      assert r[j] == calls[j - 1];
    }
    NotInCountsZero(head, CallGetchar);
    NotInCountsZero(tail, CallGetchar);
    CountConcat(head + calls, tail, CallGetchar);
    CountConcat(head, calls, CallGetchar);
    CountReplicate(CallGetchar, n);
  }

  // ------------------------------------------------------------- labels

  lemma SyntaxValid()
    ensures Syntax.Valid()
  {
    assert Syntax.jump[..|Syntax.jumpIfZero|][6] != Syntax.jumpIfZero[6];
  }

  /** No line of a non-loop node defines a label or jumps. */
  lemma NodeLinesAreInstructions(node: Node)
    requires !node.Loop?
    ensures forall i :: 0 <= i < |NodeLines(node)| ==> Instruction(NodeLines(node)[i])
  {
    match node
    case Add(n) =>
      AddLineInstruction(n);
    case Move(n) =>
      MoveLineInstruction(n);
    case Output(n) =>
      OutputInstructions(n);
    case Input(n) =>
      InputInstructions(n);
  }

  lemma AddLineInstruction(n: int)
    ensures Instruction(AddLine(n))
  {
    var m := if n > 1 then n else -n;
    if n == 1 || n == -1 {
      assert Instruction(IncCell) && Instruction(DecCell);
    } else if n > 1 {
      assert Instruction(AddCell);
      InstructionThen(AddCell, NatToString(m));
    } else {
      assert Instruction(SubCell);
      InstructionThen(SubCell, NatToString(m));
    }
  }

  lemma MoveLineInstruction(n: int)
    ensures Instruction(MoveLine(n))
  {
    var m := if n > 1 then n else -n;
    if n == 1 || n == -1 {
      assert Instruction(IncPointer) && Instruction(DecPointer);
    } else if n > 1 {
      assert Instruction(AddPointer);
      InstructionThen(AddPointer, NatToString(m));
    } else {
      assert Instruction(SubPointer);
      InstructionThen(SubPointer, NatToString(m));
    }
  }

  lemma OutputInstructions(n: int)
    ensures forall i :: 0 <= i < |OutputLines(n)| ==> Instruction(OutputLines(n)[i])
  {
    var calls := DropLast(Alternate(CallPutchar, MoveResult, n));
    assert Instruction(CallPutchar) && Instruction(MoveResult);
    assert forall i :: 0 <= i < |calls| ==> Instruction(calls[i]);
  }

  lemma InputInstructions(n: int)
    ensures forall i :: 0 <= i < |InputLines(n)| ==> Instruction(InputLines(n)[i])
  {
    assert Instruction(CallGetchar);
  }

  /**
   * The labels a body defines are, in order, the start and end labels of its
   * loops named by their paths, and its jumps name them the same way.
   */
  lemma {:induction false} BodyLabels(nodes: seq<Node>, prefix: seq<nat>, id: nat)
    ensures LabelDefs(BodyLines(nodes, PathLabel(prefix), id)) == DefNames(Defs(IrShapes(nodes), prefix, id))
    ensures JumpTargets(BodyLines(nodes, PathLabel(prefix), id), Syntax) == DefNames(Jumps(IrShapes(nodes), prefix, id))
    decreases nodes
  {
    if nodes != [] {
      SyntaxValid();
      var shapes := IrShapes(nodes);
      var parent := PathLabel(prefix);
      if nodes[0].Loop? {
        var p := prefix + [id];
        var name := parent + "_" + NatToString(id);
        PathLabelSnoc(prefix, id);
        BodyLabels(nodes[0].body, p, 0);
        BodyLabels(nodes[1..], prefix, id + 1);
        LoopLinesThen(Syntax, name, BodyLines(nodes[0].body, name, 0), BodyLines(nodes[1..], parent, id + 1));
        DefsStep(shapes, prefix, id);
        JumpsStep(shapes, prefix, id);
      } else {
        NodeLinesAreInstructions(nodes[0]);
        InstructionsThen(Syntax, NodeLines(nodes[0]), BodyLines(nodes[1..], parent, id));
        BodyLabels(nodes[1..], prefix, id);
      }
    }
  }

  /** Only `run:` is defined in the prologue, and it does not jump. */
  lemma PrologueLabels()
    ensures LabelDefs(Prologue()) == ["run"] && JumpTargets(Prologue(), Syntax) == []
  {
    var p := Prologue();
    assert LineLabel(p[0]) == [] && LineJump(p[0], Syntax) == [] by {
      SyntaxValid();
      DirectiveLine(p[0], Syntax);
    }
    assert LineLabel(p[1]) == [] && LineJump(p[1], Syntax) == [] by {
      SyntaxValid();
      DirectiveLine(p[1], Syntax);
    }
    assert LineLabel(p[2]) == [] && LineJump(p[2], Syntax) == [] by {
      SyntaxValid();
      DirectiveLine(p[2], Syntax);
    }
    assert LineLabel(p[3]) == [] && LineJump(p[3], Syntax) == [] by {
      SyntaxValid();
      EmptyLine(Syntax);
    }
    assert LineLabel(p[4]) == ["run"] && LineJump(p[4], Syntax) == [] by {
      SyntaxValid();
      LabelLine("run", Syntax);
      assert p[4] == "run" + ":";
    }
    LinesOfThree(p[0], p[1], p[2], Syntax);
    LinesOfTwo(p[3], p[4], Syntax);
    LinesConcat([p[0], p[1], p[2]], [p[3], p[4]], Syntax);
    assert p == [p[0], p[1], p[2]] + [p[3], p[4]];
  }


  /** The epilogue defines no label and does not jump. */
  lemma EpilogueLabels()
    ensures LabelDefs(Epilogue()) == [] && JumpTargets(Epilogue(), Syntax) == []
  {
    var e := Epilogue();
    assert LineLabel(e[0]) == [] && LineJump(e[0], Syntax) == [] by {
      SyntaxValid();
      InstructionLine(e[0], Syntax);
    }
    assert LineLabel(e[1]) == [] && LineJump(e[1], Syntax) == [] by {
      SyntaxValid();
      EmptyLine(Syntax);
    }
    assert LineLabel(e[2]) == [] && LineJump(e[2], Syntax) == [] by {
      SyntaxValid();
      DirectiveLine(e[2], Syntax);
    }
    LinesOfThree(e[0], e[1], e[2], Syntax);
  }


  /**
   * In the whole listing every label is defined once, and every label a
   * `je` or `jmp` names is defined exactly once.
   */
  lemma LabelsUnique(intermediate: seq<Node>)
    ensures var lines := Prologue() + BodyLines(intermediate, "", 0) + Epilogue();
      && Distinct(LabelDefs(lines))
      && forall t :: t in JumpTargets(lines, Syntax) ==> Count(LabelDefs(lines), t) == 1
  {
    BodyLabels(intermediate, [], 0);
    PrologueLabels();
    EpilogueLabels();
    ListingLabels(Prologue(), BodyLines(intermediate, "", 0), Epilogue(), Syntax, IrShapes(intermediate), "run");
  }
}
